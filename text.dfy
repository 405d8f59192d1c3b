/**
 * The two string operations the tracker relies on: Python's `str.strip()`
 * (no argument) and `str.split(" | ")`, with `Join` as the inverse of `Split`.
 */
module Text {
  import opened Wrappers

  /** The separator between the URL and the timestamp of a log record. */
  const Sep: string := " | "

  /** Python's `str.isspace()` on one character: what `strip()` removes. */
  predicate IsSpace(c: char) {
    c == ' ' || ('\t' <= c <= '\r') || ('\U{1c}' <= c <= '\U{1f}')
    || c == '\U{85}' || c == '\U{a0}' || c == '\U{1680}'
    || ('\U{2000}' <= c <= '\U{200a}') || c == '\U{2028}' || c == '\U{2029}'
    || c == '\U{202f}' || c == '\U{205f}' || c == '\U{3000}'
  }

  /** Every character is whitespace: `not s.strip()`. */
  predicate IsBlank(s: string) {
    forall i :: 0 <= i < |s| ==> IsSpace(s[i])
  }

  /** No whitespace at either end. */
  predicate IsStripped(s: string) {
    s == [] || (!IsSpace(s[0]) && !IsSpace(s[|s| - 1]))
  }

  /** Drops the leading whitespace: what is kept is a suffix of `s`. */
  function TrimStart(s: string): (r: string)
    ensures |r| <= |s| && r == s[|s| - |r|..]
    ensures forall i :: 0 <= i < |s| - |r| ==> IsSpace(s[i])
    ensures r != [] ==> !IsSpace(r[0])
  {
    if s != [] && IsSpace(s[0]) then TrimStart(s[1..]) else s
  }

  /** Drops the trailing whitespace: what is kept is a prefix of `s`. */
  function TrimEnd(s: string): (r: string)
    ensures |r| <= |s| && r == s[..|r|]
    ensures forall i :: |r| <= i < |s| ==> IsSpace(s[i])
    ensures r != [] ==> !IsSpace(r[|r| - 1])
  {
    if s != [] && IsSpace(s[|s| - 1]) then TrimEnd(s[..|s| - 1]) else s
  }

  /** Python's `s.strip()`. */
  function Strip(s: string): (r: string)
    ensures IsStripped(r)
    ensures r == [] <==> IsBlank(s)
    ensures IsStripped(s) ==> r == s
  {
    var t := TrimStart(s);
    var r := TrimEnd(t);
    r
  }

  /** `Sep` occurs in `s` starting at index `i`. */
  predicate OccursAt(s: string, i: nat) {
    i + |Sep| <= |s| && s[i] == Sep[0] && s[i + 1] == Sep[1] && s[i + 2] == Sep[2]
  }

  /** `Sep in s`. */
  predicate Contains(s: string) {
    exists i: nat :: i < |s| && OccursAt(s, i)
  }

  /** `s.find(Sep, from)`: the first occurrence of `Sep` at or after `from`. */
  function FindFrom(s: string, from: nat): (r: Option<nat>)
    requires from <= |s|
    ensures r.Some? ==> from <= r.value && OccursAt(s, r.value)
    decreases |s| - from
  {
    if from + |Sep| > |s| then None
    else if OccursAt(s, from) then Some(from)
    else FindFrom(s, from + 1)
  }

  /** `FindFrom` finds the first occurrence: there is none between `from` and what it returns. */
  lemma {:induction false} FindFromFirst(s: string, from: nat)
    requires from <= |s|
    ensures FindFrom(s, from).Some? ==> forall j: nat :: from <= j < FindFrom(s, from).value ==> !OccursAt(s, j)
    ensures FindFrom(s, from).None? ==> forall j: nat :: from <= j ==> !OccursAt(s, j)
    decreases |s| - from
  {
    if from + |Sep| <= |s| && !OccursAt(s, from) {
      FindFromFirst(s, from + 1);
    }
  }

  /** An occurrence of `Sep` inside a prefix of `s` is one in `s`. */
  lemma PrefixOccurrence(s: string, n: nat, j: nat)
    requires n <= |s| && OccursAt(s[..n], j)
    ensures OccursAt(s, j)
  {
    assert s[..n][j..j + |Sep|] == s[j..j + |Sep|];
  }

  /**
   * Python's `s.split(Sep)`: the pieces between the non-overlapping
   * occurrences of `Sep`, found from left to right.
   */
  function Split(s: string): (parts: seq<string>)
    ensures |parts| >= 1
    ensures forall k :: 0 <= k < |parts| ==> !Contains(parts[k])
    ensures |parts| == 1 <==> !Contains(s)
    decreases |s|
  {
    FindFromFirst(s, 0);
    match FindFrom(s, 0)
    case None => [s]
    case Some(i) =>
      var head := s[..i];
      assert !Contains(head) by {
        forall j: nat | OccursAt(head, j) ensures false {
          PrefixOccurrence(s, i, j);
        }
      }
      [head] + Split(s[i + |Sep|..])
  }

  /** `Sep.join(parts)`. */
  function Join(parts: seq<string>): string
    requires |parts| >= 1
  {
    if |parts| == 1 then parts[0] else parts[0] + Sep + Join(parts[1..])
  }

  /** Splitting loses nothing: joining the pieces gives the string back. */
  lemma {:induction false} JoinSplit(s: string)
    ensures Join(Split(s)) == s
    decreases |s|
  {
    match FindFrom(s, 0)
    case None =>
    case Some(i) =>
      var head, rest := s[..i], s[i + |Sep|..];
      SplitAtFirst(s, i);
      CutAt(s, i);
      JoinSplit(rest);
      JoinCons(head, Split(rest));
  }

  /** Where the first occurrence of `Sep` is, `Split` cuts `s` into the head and the split rest. */
  lemma SplitAtFirst(s: string, i: nat)
    requires FindFrom(s, 0) == Some(i)
    ensures i + |Sep| <= |s|
    ensures Split(s) == [s[..i]] + Split(s[i + |Sep|..])
  {
  }

  /** An occurrence of `Sep` cuts `s` into what is before it, `Sep` and what is after it. */
  lemma CutAt(s: string, i: nat)
    requires OccursAt(s, i)
    ensures s == s[..i] + Sep + s[i + |Sep|..]
  {
    assert s[i..i + |Sep|] == Sep;
    assert s == s[..i] + s[i..i + |Sep|] + s[i + |Sep|..];
  }

  /** Joining a piece in front of others puts `Sep` between them. */
  lemma JoinCons(head: string, parts: seq<string>)
    requires |parts| >= 1
    ensures Join([head] + parts) == head + Sep + Join(parts)
  {
    assert ([head] + parts)[1..] == parts;
  }

  /** `s.split(Sep)[0]`. */
  function FirstField(s: string): string {
    Split(s)[0]
  }

  /** Two occurrences of `Sep` that do not overlap make at least three pieces. */
  lemma TwoOccurrences(s: string, p: nat, q: nat)
    requires p + |Sep| <= q && OccursAt(s, p) && OccursAt(s, q)
    ensures |Split(s)| >= 3
  {
    FindFromFirst(s, 0);
    var i := FindFrom(s, 0).value;
    SplitAtFirst(s, i);
    var tail := s[i + |Sep|..];
    var k := q - i - |Sep|;
    assert tail[k] == s[q] && tail[k + 1] == s[q + 1] && tail[k + 2] == s[q + 2];
    assert k < |tail| && OccursAt(tail, k);
  }

  /** A non-empty stripped line has a non-empty first field, which holds no `Sep`. */
  lemma FirstFieldOfStripped(s: string)
    requires s != [] && IsStripped(s)
    ensures FirstField(s) != [] && !Contains(FirstField(s))
  {
    FindFromFirst(s, 0);
  }

  /**
   * A field followed by `Sep` splits off as the first piece exactly when
   * `Sep` does not already occur in `a + " |"`: an occurrence in `a`, or one
   * made by `a` ending in " |" and the `Sep` after it, comes first.
   */
  lemma SplitAfterField(a: string, b: string)
    ensures FirstField(a + Sep + b) == a <==> !Contains(a + " |")
    ensures !Contains(a + " |") ==> Split(a + Sep + b) == [a] + Split(b)
  {
    var s := a + Sep + b;
    var a' := a + " |";
    assert |Sep| == 3;
    forall j: nat | j < |a| ensures OccursAt(s, j) <==> OccursAt(a', j) {
      if j + |Sep| <= |a'| {
        assert s[j..j + |Sep|] == a'[j..j + |Sep|];
      }
    }
    assert OccursAt(s, |a|) by { assert s[|a|..|a| + |Sep|] == Sep; }
    FindFromFirst(s, 0);
    if Contains(a') {
      var j: nat :| j < |a'| && OccursAt(a', j);
      assert j < |a|;
      var r := FindFrom(s, 0);
      assert r.Some? && r.value <= j;
      assert |FirstField(s)| == r.value;
    } else {
      var r := FindFrom(s, 0);
      assert r == Some(|a|);
      assert s[..|a|] == a;
      assert s[|a| + |Sep|..] == b;
    }
  }

  /** `Sep` occurs in `a + " |"` exactly when it occurs in `a` or `a` ends in " |". */
  lemma ContainsWithBar(a: string)
    ensures Contains(a + " |") <==> Contains(a) || (|a| >= 2 && a[|a| - 2..] == " |")
  {
    var a' := a + " |";
    assert |Sep| == 3 && Sep[0] == ' ' && Sep[1] == '|';
    if Contains(a) {
      var j: nat :| j < |a| && OccursAt(a, j);
      assert a'[j..j + |Sep|] == a[j..j + |Sep|];
      assert OccursAt(a', j);
    }
    if |a| >= 2 && a[|a| - 2..] == " |" {
      assert a[|a| - 2] == ' ' && a[|a| - 1] == '|';
      assert a'[|a| - 2] == ' ' && a'[|a| - 1] == '|' && a'[|a|] == ' ';
      assert OccursAt(a', |a| - 2);
    }
    if Contains(a') {
      var j: nat :| j < |a'| && OccursAt(a', j);
      if j + |Sep| <= |a| {
        assert a[j..j + |Sep|] == a'[j..j + |Sep|];
        assert OccursAt(a, j);
      } else if j == |a| - 1 {
        assert a'[j + 1] == ' ';
      } else {
        assert j == |a| - 2;
        assert a[|a| - 2..] == a'[j..j + 2];
      }
    }
  }
}
