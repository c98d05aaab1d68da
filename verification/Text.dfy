/** The part of Go's `strings` package the wiki relies on, over `seq<char>`:
    - HasSuffix / TrimSuffix, used to turn directory entries back into page titles;
    - Index, Split and Join, used to store a quote's tags as one comma-joined string.
    Split and Join are modelled for a non-empty separator only; the wiki always
    passes the constant ", ".
 */
module Text {

  /** strings.HasSuffix */
  predicate HasSuffix(s: string, suffix: string) {
    |suffix| <= |s| && s[|s| - |suffix|..] == suffix
  }

  /** strings.TrimSuffix: drops `suffix` once from the end of `s` when it is there. */
  function TrimSuffix(s: string, suffix: string): (r: string)
    ensures HasSuffix(s, suffix) ==> r + suffix == s
    ensures !HasSuffix(s, suffix) ==> r == s
  {
    if HasSuffix(s, suffix) then s[..|s| - |suffix|] else s
  }

  /** Trimming a suffix undoes appending it. */
  lemma TrimAppendedSuffix(t: string, suffix: string)
    ensures TrimSuffix(t + suffix, suffix) == t
  {
  }

  /** `sep` occurs in `s` starting at position `j`. */
  predicate OccursAt(s: string, sep: string, j: int) {
    0 <= j && j + |sep| <= |s| && s[j..j + |sep|] == sep
  }

  ghost predicate Contains(s: string, sep: string) {
    exists j :: OccursAt(s, sep, j)
  }

  /** No proper prefix of `sep` is also a suffix of it, so two occurrences of
      `sep` can never overlap. */
  predicate Unbordered(sep: string) {
    forall k :: 0 < k < |sep| ==> sep[..k] != sep[|sep| - k..]
  }

  /** Occurrences in `s[1..]` are the occurrences in `s` shifted left by one. */
  lemma OccursShift(s: string, sep: string)
    requires |s| > 0
    ensures forall j :: 1 <= j ==> (OccursAt(s, sep, j) <==> OccursAt(s[1..], sep, j - 1))
  {
  }

  /** strings.Index for a non-empty separator: the first position at which `sep`
      occurs in `s`, or -1 when it does not occur. */
  function IndexOf(s: string, sep: string): (r: int)
    requires |sep| > 0
    ensures r == -1 || 0 <= r
    ensures r == -1 <==> !Contains(s, sep)
    ensures 0 <= r ==> OccursAt(s, sep, r)
    ensures forall j :: 0 <= j < r ==> !OccursAt(s, sep, j)
    decreases |s|
  {
    if |s| < |sep| then -1
    else if s[..|sep|] == sep then
      assert OccursAt(s, sep, 0);
      0
    else
      var j := IndexOf(s[1..], sep);
      OccursShift(s, sep);
      if j < 0 then -1
      else
        assert OccursAt(s, sep, j + 1);
        j + 1
  }

  /** strings.Join */
  function Join(parts: seq<string>, sep: string): string
  {
    if |parts| == 0 then ""
    else if |parts| == 1 then parts[0]
    else parts[0] + sep + Join(parts[1..], sep)
  }

  /** An occurrence inside a prefix of `s` is an occurrence inside `s`. */
  lemma OccursInPrefix(s: string, sep: string, i: int, j: int)
    requires |sep| > 0 && 0 <= i <= |s|
    ensures OccursAt(s[..i], sep, j) ==> OccursAt(s, sep, j) && j < i
  {
  }

  /** strings.Split for a non-empty separator. Splitting always yields at least
      one piece, no piece contains the separator, and joining the pieces back
      with the separator gives the input again. */
  function Split(s: string, sep: string): (r: seq<string>)
    requires |sep| > 0
    ensures |r| >= 1
    ensures forall i :: 0 <= i < |r| ==> !Contains(r[i], sep)
    ensures Join(r, sep) == s
    decreases |s|
  {
    var i := IndexOf(s, sep);
    if i < 0 then [s]
    else
      var head, tail := s[..i], s[i + |sep|..];
      var rest := Split(tail, sep);
      assert !Contains(head, sep) by {
        forall j ensures !OccursAt(head, sep, j) {
          OccursInPrefix(s, sep, i, j);
        }
      }
      assert s == head + sep + tail by {
        assert s[i..i + |sep|] == sep;
      }
      assert ([head] + rest)[1..] == rest;
      [head] + rest
  }

  /** An occurrence that ends inside `t` lies wholly inside `t`. */
  lemma OccursInsideLeft(t: string, u: string, sep: string, j: int)
    requires 0 <= j && j + |sep| <= |t|
    ensures OccursAt(t + u, sep, j) ==> OccursAt(t, sep, j)
  {
  }

  /** An occurrence of `sep` that starts inside `t` and runs into a following
      copy of `sep` would make a proper prefix of `sep` equal to a suffix of it. */
  lemma OccursStraddling(t: string, sep: string, rest: string, j: int)
    requires 0 <= j < |t| < j + |sep|
    ensures OccursAt(t + sep + rest, sep, j) ==>
              sep[..j + |sep| - |t|] == sep[|t| - j..]
  {
  }

  /** When `t` has no occurrence of an unbordered `sep`, the first occurrence
      of `sep` in `t + sep + rest` is the one right after `t`. */
  lemma FirstSeparator(t: string, sep: string, rest: string)
    requires |sep| > 0 && Unbordered(sep)
    requires !Contains(t, sep)
    ensures IndexOf(t + sep + rest, sep) == |t|
  {
    var s := t + sep + rest;
    assert s[|t|..|t| + |sep|] == sep;
    assert OccursAt(s, sep, |t|);
    forall j | 0 <= j < |t|
      ensures !OccursAt(s, sep, j)
    {
      if j + |sep| <= |t| {
        OccursInsideLeft(t, sep + rest, sep, j);
        assert s == t + (sep + rest);
      } else {
        OccursStraddling(t, sep, rest, j);
        assert |sep| - (j + |sep| - |t|) == |t| - j;
      }
    }
  }

  /** Splitting a joined list gives the list back, provided the list is non-empty,
      no element contains the separator and the separator cannot overlap itself. */
  lemma {:induction false} SplitJoin(parts: seq<string>, sep: string)
    requires |sep| > 0 && Unbordered(sep)
    requires |parts| >= 1
    requires forall i :: 0 <= i < |parts| ==> !Contains(parts[i], sep)
    ensures Split(Join(parts, sep), sep) == parts
    decreases |parts|
  {
    if |parts| == 1 {
      assert Join(parts, sep) == parts[0];
    } else {
      var t, rest := parts[0], Join(parts[1..], sep);
      var s := t + sep + rest;
      assert Join(parts, sep) == s;
      FirstSeparator(t, sep, rest);
      assert s[..|t|] == t;
      assert s[|t| + |sep|..] == rest;
      SplitJoin(parts[1..], sep);
      assert parts == [t] + parts[1..];
    }
  }
}
