/** The stamp files that list the artifacts of a Cargo run: `run_cargo` writes them, and
    `read_stamp_file` reads them back. */
module StampFile {
  import opened StableOrder
  import opened Comparators
  import opened Options
  import SliceSort

  type Byte = b: nat | b < 256

  const NUL: Byte := 0
  const HOST: Byte := 'h' as int
  const TARGET: Byte := 't' as int

  /** A path, as bytes, and whether it is a proc macro built for the host. */
  datatype Dep = Dep(path: seq<Byte>, host: bool)

  predicate NulFree(s: seq<Byte>) { NUL !in s }

  function Entry(d: Dep): seq<Byte> {
    [if d.host then HOST else TARGET] + d.path + [NUL]
  }

  function Encode(deps: seq<Dep>): seq<Byte> {
    if deps == [] then [] else Encode(deps[..|deps| - 1]) + Entry(deps[|deps| - 1])
  }

  /** `contents.split(|b| *b == 0)`: the stretches between the NUL bytes. */
  function Split(s: seq<Byte>): (r: seq<seq<Byte>>)
    ensures r != []
  {
    if s == [] then [[]]
    else
      var rest := Split(s[1..]);
      if s[0] == NUL then [[]] + rest else [[s[0]] + rest[0]] + rest[1..]
  }

  /** The entries behind the parts; empty parts are skipped. */
  function Parse(parts: seq<seq<Byte>>): seq<Dep> {
    if parts == [] then []
    else
      var part := parts[|parts| - 1];
      Parse(parts[..|parts| - 1]) + ParsePart(part)
  }

  function ParsePart(part: seq<Byte>): seq<Dep> {
    if part == [] then [] else [Dep(part[1..], part[0] == HOST)]
  }

  function Decode(contents: seq<Byte>): seq<Dep> { Parse(Split(contents)) }

  /** All the paths are text: `utf8` decides which byte strings are. */
  ghost predicate AllText(deps: seq<Dep>, utf8: seq<Byte> -> bool) {
    forall i :: 0 <= i < |deps| ==> utf8(deps[i].path)
  }

  // ---- The writer and the reader ----

  /** The contents of the file. It panics on a path that is not text. */
  method WriteEntries(deps: seq<Dep>, utf8: seq<Byte> -> bool) returns (r: Option<seq<Byte>>)
    ensures r == if AllText(deps, utf8) then Some(Encode(deps)) else None
  {
    var contents: seq<Byte> := [];
    for i := 0 to |deps|
      invariant contents == Encode(deps[..i])
      invariant forall k :: 0 <= k < i ==> utf8(deps[k].path)
    {
      assert deps[..i + 1][..i] == deps[..i];
      if !utf8(deps[i].path) {
        return None;
      }
      contents := contents + [if deps[i].host then HOST else TARGET];
      contents := contents + deps[i].path;
      contents := contents + [NUL];
      assert contents == Encode(deps[..i]) + Entry(deps[i]);
    }
    assert deps[..|deps|] == deps;
    return Some(contents);
  }

  /** The tail of `run_cargo`: `less` is the order of pairs of a path and a flag. */
  method WriteStamp(deps: array<Dep>, less: (Dep, Dep) -> bool, utf8: seq<Byte> -> bool)
    returns (r: Option<seq<Byte>>)
    requires StrictWeakOrder(less)
    modifies deps
    ensures StableSortOf(less, old(deps[..]), deps[..])
    ensures r == if AllText(deps[..], utf8) then Some(Encode(deps[..])) else None
  {
    var cmp := new Comparator((_: seq<(Dep, Dep)>, a: Dep, b: Dep) => AnswerOf(less(a, b)));
    var ok := SliceSort.MergeSort(deps, 1, cmp, less);
    r := WriteEntries(deps[..], utf8);
  }

  /** `read_stamp_file`. It panics on a path that is not text. */
  method ReadStamp(contents: seq<Byte>, dryRun: bool, utf8: seq<Byte> -> bool) returns (r: Option<seq<Dep>>)
    ensures dryRun ==> r == Some([])
    ensures !dryRun ==> r == if AllText(Decode(contents), utf8) then Some(Decode(contents)) else None
  {
    if dryRun {
      return Some([]);
    }
    var paths: seq<Dep> := [];
    var parts := Split(contents);
    for i := 0 to |parts|
      invariant paths == Parse(parts[..i]) && AllText(paths, utf8)
    {
      var part := parts[i];
      assert parts[..i + 1][..i] == parts[..i];
      if part == [] {
        continue;
      }
      var host := part[0] == HOST;
      if !utf8(part[1..]) {
        NotAllText(parts, i, utf8);
        return None;
      }
      paths := paths + [Dep(part[1..], host)];
    }
    assert parts[..|parts|] == parts;
    return Some(paths);
  }

  lemma NotAllText(parts: seq<seq<Byte>>, i: nat, utf8: seq<Byte> -> bool)
    requires i < |parts| && parts[i] != [] && !utf8(parts[i][1..])
    ensures !AllText(Parse(parts), utf8)
  {
    ParsedAt(parts, i);
  }

  /** Every part that is not empty is parsed. */
  lemma {:induction false} ParsedAt(parts: seq<seq<Byte>>, i: nat)
    requires i < |parts| && parts[i] != []
    ensures exists k :: 0 <= k < |Parse(parts)| && Parse(parts)[k].path == parts[i][1..]
  {
    var front := parts[..|parts| - 1];
    if i < |front| {
      ParsedAt(front, i);
      var k :| 0 <= k < |Parse(front)| && Parse(front)[k].path == front[i][1..];
      assert Parse(parts)[k] == Parse(front)[k];
    } else {
      assert Parse(parts)[|Parse(front)|].path == parts[i][1..];
    }
  }

  // ---- The round trip ----

  lemma {:induction false} SplitAtNul(x: seq<Byte>, y: seq<Byte>)
    requires NulFree(x)
    ensures Split(x + [NUL] + y) == [x] + Split(y)
  {
    if x == [] {
      assert ([] + [NUL] + y)[1..] == y;
    } else {
      var s := x + [NUL] + y;
      assert s[1..] == x[1..] + [NUL] + y;
      SplitAtNul(x[1..], y);
      assert [x[0]] + x[1..] == x;
    }
  }

  /** The file of one path: an `h` or a `t`, the path, and a NUL byte. */
  lemma EncodedBytes(path: seq<Byte>, host: bool)
    ensures Encode([Dep(path, host)]) == [if host then 104 else 116] + path + [0]
  {
    assert [Dep(path, host)][..0] == [];
  }

  /** The file of a list is those of its parts, one behind the other. */
  lemma {:induction false} EncodedConcat(a: seq<Dep>, b: seq<Dep>)
    ensures Encode(a + b) == Encode(a) + Encode(b)
    decreases |b|
  {
    if b == [] {
      assert a + b == a;
    } else {
      var front, last := b[..|b| - 1], b[|b| - 1];
      EncodedConcat(a, front);
      assert (a + b)[..|a + b| - 1] == a + front && (a + b)[|a + b| - 1] == last;
      Reassociate(Encode(a), Encode(front), Entry(last));
    }
  }

  lemma Reassociate<T>(a: seq<T>, b: seq<T>, c: seq<T>)
    ensures a + b + c == a + (b + c)
  {
  }

  lemma {:induction false} ParseFront(part: seq<Byte>, parts: seq<seq<Byte>>)
    ensures Parse([part] + parts) == ParsePart(part) + Parse(parts)
  {
    if parts == [] {
      assert [part] + parts == [part] && [part][..0] == [];
    } else {
      var front, last := parts[..|parts| - 1], parts[|parts| - 1];
      ParseFront(part, front);
      var all := [part] + parts;
      assert all[..|all| - 1] == [part] + front && all[|all| - 1] == last;
      Reassociate(ParsePart(part), Parse(front), ParsePart(last));
    }
  }

  /** The first entry is read back first. */
  lemma DecodeEntry(d: Dep, rest: seq<Byte>)
    requires NulFree(d.path)
    ensures Decode(Entry(d) + rest) == [d] + Decode(rest)
  {
    var part := [if d.host then HOST else TARGET] + d.path;
    SplitAtNul(part, rest);
    assert Entry(d) + rest == part + [NUL] + rest;
    ParseFront(part, Split(rest));
    assert ParsePart(part) == [d];
  }

  lemma {:induction false} EncodeFront(d: Dep, deps: seq<Dep>)
    ensures Encode([d] + deps) == Entry(d) + Encode(deps)
  {
    if deps == [] {
      assert [d] + deps == [d] && [d][..0] == [];
    } else {
      var front, last := deps[..|deps| - 1], deps[|deps| - 1];
      EncodeFront(d, front);
      var all := [d] + deps;
      assert all[..|all| - 1] == [d] + front && all[|all| - 1] == last;
      Reassociate(Entry(d), Encode(front), Entry(last));
    }
  }

  lemma {:induction false} DecodeEncoded(deps: seq<Dep>)
    requires forall i :: 0 <= i < |deps| ==> NulFree(deps[i].path)
    ensures Decode(Encode(deps)) == deps
  {
    if deps == [] {
      assert Split([])[..0] == [];
    } else {
      assert deps == [deps[0]] + deps[1..];
      EncodeFront(deps[0], deps[1..]);
      DecodeEntry(deps[0], Encode(deps[1..]));
      DecodeEncoded(deps[1..]);
    }
  }

  lemma {:induction false} SplitNulFree(s: seq<Byte>, i: nat)
    requires i < |Split(s)|
    ensures NulFree(Split(s)[i])
  {
    if s != [] {
      var rest := Split(s[1..]);
      if s[0] == NUL {
        if i > 0 { SplitNulFree(s[1..], i - 1); }
      } else {
        SplitNulFree(s[1..], i);
      }
    }
  }

  lemma {:induction false} ParsedNulFree(parts: seq<seq<Byte>>, i: nat)
    requires forall k :: 0 <= k < |parts| ==> NulFree(parts[k])
    requires i < |Parse(parts)|
    ensures NulFree(Parse(parts)[i].path)
  {
    var front := parts[..|parts| - 1];
    if i < |Parse(front)| {
      ParsedNulFree(front, i);
    }
  }

  /** What is read is what was written, exactly if no path holds a NUL byte. */
  lemma RoundTripIff(deps: seq<Dep>)
    ensures Decode(Encode(deps)) == deps <==> forall i :: 0 <= i < |deps| ==> NulFree(deps[i].path)
  {
    if forall i :: 0 <= i < |deps| ==> NulFree(deps[i].path) {
      DecodeEncoded(deps);
    }
    if Decode(Encode(deps)) == deps {
      var parts := Split(Encode(deps));
      forall k | 0 <= k < |parts| ensures NulFree(parts[k]) { SplitNulFree(Encode(deps), k); }
      forall i | 0 <= i < |deps| ensures NulFree(deps[i].path) { ParsedNulFree(parts, i); }
    }
  }

  /** Writer and reader together: what is read back is what was written exactly if every path is text
      without a NUL byte. */
  method WriteAndRead(deps: array<Dep>, less: (Dep, Dep) -> bool, utf8: seq<Byte> -> bool)
    returns (r: Option<seq<Dep>>)
    requires StrictWeakOrder(less)
    modifies deps
    ensures StableSortOf(less, old(deps[..]), deps[..])
    ensures r == Some(deps[..]) <==>
              AllText(deps[..], utf8) && forall i :: 0 <= i < deps.Length ==> NulFree(deps[i].path)
  {
    var contents := WriteStamp(deps, less, utf8);
    RoundTripIff(deps[..]);
    assert forall i :: 0 <= i < deps.Length ==> deps[..][i] == deps[i];
    if contents == None {
      return None;
    }
    r := ReadStamp(contents.value, false, utf8);
  }
}
