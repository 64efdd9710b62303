/** Sequence slicing and string joining as Python's `s[:n]` and `sep.join(parts)`
    behave, with a character splitter that undoes a one-character join. */
module Text {

  function Min(a: int, b: int): int
  {
    if a <= b then a else b
  }

  /** Python's slice `s[:n]` for a non-negative `n`: the first `n` elements,
      or all of `s` when it is shorter. */
  function Take<T>(s: seq<T>, n: nat): (r: seq<T>)
    ensures |r| == Min(n, |s|)
    ensures r <= s
  {
    if |s| <= n then s else s[..n]
  }

  /** Sum of the lengths of all parts. */
  function TotalLength(parts: seq<string>): nat
  {
    if |parts| == 0 then 0 else |parts[0]| + TotalLength(parts[1..])
  }

  /** Python's `sep.join(parts)`: the parts in order, `sep` between neighbours,
      nothing before the first part and nothing after the last. */
  function Join(sep: string, parts: seq<string>): (r: string)
    ensures |parts| == 0 ==> r == ""
    ensures |parts| > 0 ==> |r| == TotalLength(parts) + (|parts| - 1) * |sep|
    ensures |parts| > 0 ==> parts[0] <= r
  {
    if |parts| == 0 then ""
    else if |parts| == 1 then parts[0]
    else parts[0] + sep + Join(sep, parts[1..])
  }

  /** Joining two non-empty lists is joining each and putting one separator between. */
  lemma {:induction false} JoinConcat(sep: string, a: seq<string>, b: seq<string>)
    requires |a| > 0 && |b| > 0
    ensures Join(sep, a + b) == Join(sep, a) + sep + Join(sep, b)
    decreases |a|
  {
    if |a| == 1 {
      assert (a + b)[1..] == b;
    } else {
      assert (a + b)[1..] == a[1..] + b;
      JoinConcat(sep, a[1..], b);
    }
  }

  /** Every part appears in the joined string, after all parts before it and
      before all parts after it, with exactly one separator to each neighbour. */
  lemma JoinAt(sep: string, parts: seq<string>, i: nat)
    requires i < |parts|
    ensures Join(sep, parts) ==
              (if i == 0 then "" else Join(sep, parts[..i]) + sep)
              + parts[i]
              + (if i == |parts| - 1 then "" else sep + Join(sep, parts[i + 1..]))
  {
    var before, after := parts[..i], parts[i + 1..];
    if i < |parts| - 1 {
      assert [parts[i]] + after == parts[i..];
      JoinConcat(sep, [parts[i]], after);
    }
    assert parts[i..][0] == parts[i];
    if 0 < i {
      assert before + parts[i..] == parts;
      JoinConcat(sep, before, parts[i..]);
    } else {
      assert parts[i..] == parts;
    }
  }

  /** Position of the first occurrence of `c` in `s`. */
  function IndexOf(s: string, c: char): (i: nat)
    requires c in s
    ensures i < |s| && s[i] == c
    ensures c !in s[..i]
  {
    if s[0] == c then 0
    else
      assert s == [s[0]] + s[1..];
      var j := IndexOf(s[1..], c);
      assert s[..j + 1] == [s[0]] + s[1..][..j];
      j + 1
  }

  /** Python's `s.split(c)` for a one-character separator: the maximal runs of
      `s` that do not contain `c`, in order. */
  function Split(s: string, c: char): (r: seq<string>)
    ensures |r| >= 1
    ensures forall k :: 0 <= k < |r| ==> c !in r[k]
    decreases |s|
  {
    if c !in s then [s]
    else
      var i := IndexOf(s, c);
      [s[..i]] + Split(s[i + 1..], c)
  }

  /** Joining with a one-character separator that no part contains is undone by
      splitting at that character: the parts come back unchanged and in order. */
  lemma {:induction false} SplitJoin(parts: seq<string>, c: char)
    requires |parts| > 0
    requires forall k :: 0 <= k < |parts| ==> c !in parts[k]
    ensures Split(Join([c], parts), c) == parts
    decreases |parts|
  {
    if |parts| > 1 {
      var p, rest := parts[0], Join([c], parts[1..]);
      var s := p + [c] + rest;
      assert Join([c], parts) == s;
      assert s[|p|] == c;
      assert s[..|p|] == p;
      var i := IndexOf(s, c);
      assert i == |p|;
      assert s[i + 1..] == rest;
      SplitJoin(parts[1..], c);
      assert parts == [p] + parts[1..];
    }
  }
}
