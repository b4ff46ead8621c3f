/** The Python string operations the analyzer relies on, over `string`
    (a sequence of Unicode scalar values; a Python `str` may also hold lone
    surrogates, but every text here comes from strict UTF-8 decoding or
    from literals, so none occurs):
    `str.isspace` and `str.strip()`, substring search (`sep in s`),
    `str.split(sep)` and `sep.join`, `str.endswith`, and `str(n)` for a
    non-negative integer. */
module Text {

  datatype Option<T> = None | Some(value: T)

  // ---------------------------------------------------------------------
  // Whitespace and strip
  // ---------------------------------------------------------------------

  /** The characters Python's `str.isspace` (and so `str.strip()` with no
      argument) treats as whitespace: U+0009..U+000D, U+001C..U+0020,
      U+0085, U+00A0, U+1680, U+2000..U+200A, U+2028, U+2029, U+202F,
      U+205F and U+3000. */
  predicate IsSpace(c: char) {
    || ('\t' <= c <= '\r')
    || ('\U{1C}' <= c <= ' ')
    || c == '\U{85}' || c == '\U{A0}' || c == '\U{1680}'
    || ('\U{2000}' <= c <= '\U{200A}')
    || c == '\U{2028}' || c == '\U{2029}' || c == '\U{202F}'
    || c == '\U{205F}' || c == '\U{3000}'
  }

  predicate AllSpace(s: string) {
    forall k :: 0 <= k < |s| ==> IsSpace(s[k])
  }

  /** Neither the first nor the last character of `s` is whitespace. */
  predicate HasNoSpaceEnds(s: string) {
    s == [] || (!IsSpace(s[0]) && !IsSpace(s[|s| - 1]))
  }

  /** `r` is what is left of `s` once a whitespace-only prefix of length
      `lo` and a whitespace-only suffix are cut off. */
  predicate TrimmedAt(s: string, r: string, lo: nat) {
    && lo + |r| <= |s|
    && s[lo..lo + |r|] == r
    && AllSpace(s[..lo])
    && AllSpace(s[lo + |r|..])
  }

  /** `s` without its leading whitespace (Python `s.lstrip()`). */
  function StripStart(s: string): (r: string)
    ensures |r| <= |s| && r == s[|s| - |r|..]
    ensures AllSpace(s[..|s| - |r|])
    ensures r == [] || !IsSpace(r[0])
    decreases |s|
  {
    if s != [] && IsSpace(s[0]) then
      var r := StripStart(s[1..]);
      assert s[..|s| - |r|] == [s[0]] + s[1..][..|s| - 1 - |r|];
      r
    else
      s
  }

  /** `s` without its trailing whitespace (Python `s.rstrip()`). */
  function StripEnd(s: string): (r: string)
    ensures |r| <= |s| && r == s[..|r|]
    ensures AllSpace(s[|r|..])
    ensures r == [] || !IsSpace(r[|r| - 1])
    decreases |s|
  {
    if s != [] && IsSpace(s[|s| - 1]) then
      var r := StripEnd(s[..|s| - 1]);
      assert s[|r|..] == s[..|s| - 1][|r|..] + [s[|s| - 1]];
      r
    else
      s
  }

  /** Python `s.strip()`: the result is a piece of `s` whose surroundings
      are all whitespace and whose own ends are not. */
  function Strip(s: string): (r: string)
    ensures exists lo: nat :: TrimmedAt(s, r, lo)
    ensures HasNoSpaceEnds(r)
  {
    StripBothEnds(s);
    StripEnd(StripStart(s))
  }
  lemma StripBothEnds(s: string)
    ensures exists lo: nat :: TrimmedAt(s, StripEnd(StripStart(s)), lo)
    ensures HasNoSpaceEnds(StripEnd(StripStart(s)))
  {
    var t := StripStart(s);
    StripPieces(s, t, StripEnd(t));
  }
  /** Cutting whitespace off the front and then off the back leaves a
      trimmed piece with non-space ends. */
  lemma StripPieces(s: string, t: string, r: string)
    requires |t| <= |s| && t == s[|s| - |t|..] && AllSpace(s[..|s| - |t|])
    requires t == [] || !IsSpace(t[0])
    requires |r| <= |t| && r == t[..|r|] && AllSpace(t[|r|..])
    requires r == [] || !IsSpace(r[|r| - 1])
    ensures exists lo: nat :: TrimmedAt(s, r, lo)
    ensures HasNoSpaceEnds(r)
  {
    var lo := |s| - |t|;
    SliceOfSlice(s, lo, |s|, 0, |r|);
    assert t[..|r|] == t[0..|r|];
    assert s[lo + |r|..] == t[|r|..] by {
      SliceOfSlice(s, lo, |s|, |r|, |t|);
      assert t[|r|..] == t[|r|..|t|];
      assert s[lo + |r|..] == s[lo + |r|..|s|];
    }
    if r != [] {
      assert r[0] == t[0];
    }
    assert TrimmedAt(s, r, lo);
  }

  /** What `TrimmedAt` says, index by index. */
  lemma TrimmedAtIndex(s: string, r: string, lo: nat)
    requires TrimmedAt(s, r, lo)
    ensures forall k :: 0 <= k < lo ==> IsSpace(s[k])
    ensures forall k :: lo + |r| <= k < |s| ==> IsSpace(s[k])
    ensures forall k :: lo <= k < lo + |r| ==> s[k] == r[k - lo]
  {
    forall k | 0 <= k < lo ensures IsSpace(s[k]) {
      assert s[..lo][k] == s[k];
    }
    forall k | lo + |r| <= k < |s| ensures IsSpace(s[k]) {
      assert s[lo + |r|..][k - lo - |r|] == s[k];
    }
  }

  /** Two ways of trimming the same string to pieces with non-space ends
      give the same piece. */
  lemma TrimmedUnique(s: string, r1: string, lo1: nat, r2: string, lo2: nat)
    requires TrimmedAt(s, r1, lo1) && HasNoSpaceEnds(r1)
    requires TrimmedAt(s, r2, lo2) && HasNoSpaceEnds(r2)
    ensures r1 == r2
  {
    TrimmedAtIndex(s, r1, lo1);
    TrimmedAtIndex(s, r2, lo2);
    assert r1 == [] <==> r2 == [];
    if r1 != [] {
      assert lo1 == lo2;
      assert lo1 + |r1| == lo2 + |r2|;
    }
  }

  /** Trimming to the empty string means that every character was space. */
  lemma LoneSpaceRun(s: string, r: string, lo: nat, k: nat)
    requires TrimmedAt(s, r, lo) && r == []
    requires k < |s|
    ensures IsSpace(s[k])
  {
    TrimmedAtIndex(s, r, lo);
  }

  /** `Strip` is determined by its contract: any whitespace-surrounded
      piece of `s` with non-space ends is `Strip(s)`. */
  lemma StripUnique(s: string, r: string, lo: nat)
    requires TrimmedAt(s, r, lo) && HasNoSpaceEnds(r)
    ensures Strip(s) == r
  {
    var lo' :| TrimmedAt(s, Strip(s), lo');
    TrimmedUnique(s, r, lo, Strip(s), lo');
  }

  /** Stripping twice is stripping once. */
  lemma StripIdempotent(s: string)
    ensures Strip(Strip(s)) == Strip(s)
  {
    var r := Strip(s);
    assert TrimmedAt(r, r, 0) by {
      assert r[..0] == [] && r[|r|..] == [];
    }
    StripUnique(r, r, 0);
  }

  /** `s.strip()` is empty exactly when `s` is all whitespace. */
  lemma StripEmptyIff(s: string)
    ensures Strip(s) == [] <==> AllSpace(s)
  {
    if AllSpace(s) {
      assert TrimmedAt(s, [], 0) by {
        assert s[..0] == [] && s[0..] == s;
      }
      StripUnique(s, [], 0);
    }
    if Strip(s) == [] {
      var lo :| TrimmedAt(s, Strip(s), lo);
      forall k | 0 <= k < |s| ensures IsSpace(s[k]) {
        LoneSpaceRun(s, Strip(s), lo, k);
      }
    }
  }

  // ---------------------------------------------------------------------
  // Substring search
  // ---------------------------------------------------------------------

  /** `sep` occurs in `s` starting at index `i`. */
  predicate OccursAt(s: string, sep: string, i: nat) {
    i + |sep| <= |s| && s[i..i + |sep|] == sep
  }

  /** `i` is the first index at which `sep` occurs in `s`. */
  predicate FirstAt(s: string, sep: string, i: nat) {
    OccursAt(s, sep, i) && forall j: nat :: j < i ==> !OccursAt(s, sep, j)
  }

  /** Python `s.find(sep)`, with `None` for -1 (what it finds is stated
      by `IndexOfSpec`). */
  function IndexOf(s: string, sep: string): Option<nat>
    decreases |s|
  {
    if |s| < |sep| then None
    else if s[..|sep|] == sep then Some(0)
    else
      match IndexOf(s[1..], sep)
      case None => None
      case Some(i) => Some(i + 1)
  }

  /** `IndexOf` finds the first occurrence, and finds nothing only when
      there is no occurrence at all. */
  lemma {:induction false} IndexOfSpec(s: string, sep: string)
    ensures IndexOf(s, sep).Some? ==> FirstAt(s, sep, IndexOf(s, sep).value)
    ensures IndexOf(s, sep).None? ==> forall i: nat :: !OccursAt(s, sep, i)
    decreases |s|
  {
    if |s| >= |sep| && s[..|sep|] != sep {
      IndexOfSpec(s[1..], sep);
      forall j: nat | j > 0 ensures OccursAt(s, sep, j) <==> OccursAt(s[1..], sep, j - 1) {
        OccursAtShift(s, sep, 1, j - 1);
      }
      assert !OccursAt(s, sep, 0);
    }
  }

  /** Python `sep in s`. */
  predicate Contains(s: string, sep: string)
    ensures Contains(s, sep) ==> |sep| <= |s|
    ensures sep == [] ==> Contains(s, sep)
  {
    assert sep == [] ==> OccursAt(s, sep, 0);
    exists i: nat :: i <= |s| - |sep| && OccursAt(s, sep, i)
  }

  /** An occurrence anywhere means `Contains`. */
  lemma ContainsAt(s: string, sep: string, k: nat)
    requires OccursAt(s, sep, k)
    ensures Contains(s, sep)
  {
    assert k <= |s| - |sep|;
  }
  /** `sep in s` holds exactly when `s.find(sep)` finds something. */
  lemma ContainsIff(s: string, sep: string)
    ensures Contains(s, sep) <==> IndexOf(s, sep).Some?
  {
    IndexOfSpec(s, sep);
    if IndexOf(s, sep).Some? {
      ContainsAt(s, sep, IndexOf(s, sep).value);
    }
  }
  /** What `IndexOf` finds is an occurrence. */
  lemma IndexOfFound(s: string, sep: string)
    requires IndexOf(s, sep).Some?
    ensures OccursAt(s, sep, IndexOf(s, sep).value)
  {
    IndexOfSpec(s, sep);
  }
  /** What `IndexOf` finds is the first occurrence. */
  lemma IndexOfFirst(s: string, sep: string)
    requires IndexOf(s, sep).Some?
    ensures FirstAt(s, sep, IndexOf(s, sep).value)
  {
    IndexOfSpec(s, sep);
  }
  lemma ThreePieces(s: string, i: nat, j: nat)
    requires i <= j <= |s|
    ensures s == s[..i] + s[i..j] + s[j..]
  {
  }

  /** A slice of a slice is a slice. */
  lemma SliceOfSlice(s: string, a: nat, b: nat, c: nat, d: nat)
    requires a <= b <= |s| && c <= d <= b - a
    ensures s[a..b][c..d] == s[a + c..a + d]
  {
    forall k | 0 <= k < d - c ensures s[a..b][c..d][k] == s[a + c..a + d][k] {
      assert s[a..b][c..d][k] == s[a..b][c + k] == s[a + c + k];
    }
  }

  /** The first occurrence is unique. */
  lemma FirstAtIsIndexOf(s: string, sep: string, i: nat)
    requires FirstAt(s, sep, i)
    ensures IndexOf(s, sep) == Some(i)
  {
    IndexOfSpec(s, sep);
    var r := IndexOf(s, sep);
    assert r.Some?;
    assert !(r.value < i) && !(i < r.value);
  }

  /** An occurrence inside a dropped prefix shifts by the prefix's length. */
  lemma OccursAtShift(s: string, sep: string, d: nat, j: nat)
    requires d <= |s|
    ensures OccursAt(s[d..], sep, j) <==> OccursAt(s, sep, d + j)
  {
    if j + |sep| <= |s| - d {
      SliceOfSlice(s, d, |s|, j, j + |sep|);
    }
  }

  /** An occurrence inside a kept prefix is one that ends inside it. */
  lemma OccursAtPrefix(s: string, sep: string, n: nat, j: nat)
    requires n <= |s|
    ensures OccursAt(s[..n], sep, j) <==> OccursAt(s, sep, j) && j + |sep| <= n
  {
    if j + |sep| <= n {
      SliceOfSlice(s, 0, n, j, j + |sep|);
      assert s[..n] == s[0..n];
    }
  }

  /** An occurrence inside a slice is one that lies inside the slice. */
  lemma OccursAtSlice(s: string, sep: string, a: nat, b: nat, j: nat)
    requires a <= b <= |s|
    ensures OccursAt(s[a..b], sep, j) <==> OccursAt(s, sep, a + j) && a + j + |sep| <= b
  {
    if j + |sep| <= b - a {
      SliceOfSlice(s, a, b, j, j + |sep|);
    }
  }

  /** From any index there is a next occurrence of `sep`, or none up to
      the end of `s`. */
  lemma NextOccurrence(s: string, sep: string, d: nat) returns (p: nat)
    requires d <= |s|
    ensures d <= p <= |s|
    ensures p == |s| || OccursAt(s, sep, p)
    ensures forall k: nat :: d <= k < p ==> !OccursAt(s, sep, k)
  {
    IndexOfSpec(s[d..], sep);
    match IndexOf(s[d..], sep)
    case None =>
      p := |s|;
      forall k: nat | d <= k < p ensures !OccursAt(s, sep, k) {
        OccursAtShift(s, sep, d, k - d);
      }
    case Some(q) =>
      p := d + q;
      OccursAtShift(s, sep, d, q);
      forall k: nat | d <= k < p ensures !OccursAt(s, sep, k) {
        OccursAtShift(s, sep, d, k - d);
      }
  }

  /** No occurrence of `sep` starts where its first character is absent. */
  lemma NoOccurrenceWithoutHead(s: string, sep: string, a: nat, b: nat)
    requires sep != []
    requires forall k :: a <= k < b && k < |s| ==> s[k] != sep[0]
    ensures forall k: nat :: a <= k < b ==> !OccursAt(s, sep, k)
  {
    forall k: nat | a <= k < b ensures !OccursAt(s, sep, k) {
      if k + |sep| <= |s| {
        assert s[k..k + |sep|][0] == s[k];
      }
    }
  }

  /** A string none of whose characters starts `sep` does not contain it. */
  lemma LacksHead(s: string, sep: string)
    requires sep != []
    requires forall k :: 0 <= k < |s| ==> s[k] != sep[0]
    ensures !Contains(s, sep)
  {
    NoOccurrenceWithoutHead(s, sep, 0, |s|);
  }

  /** No occurrence of `m` lies wholly inside a slice that lacks `m`. */
  lemma NotInsidePiece(s: string, m: string, a: nat, b: nat, k: nat)
    requires a <= b <= |s| && !Contains(s[a..b], m)
    ensures a <= k && k + |m| <= b ==> !OccursAt(s, m, k)
  {
    if a <= k {
      OccursAtSlice(s, m, a, b, k - a);
    }
  }

  /** When no character of `m` after its first is the first character of
      `n`, an occurrence of `m` cannot start before an occurrence of `n`
      and run into it. */
  lemma MarkerNotOverlapped(s: string, m: string, n: string, k: nat, p: nat)
    requires OccursAt(s, n, p) && n != []
    requires forall t :: 1 <= t < |m| ==> m[t] != n[0]
    ensures k < p < k + |m| ==> !OccursAt(s, m, k)
  {
    assert s[p] == s[p..p + |n|][0];
    if k < p < k + |m| && k + |m| <= |s| {
      assert s[k..k + |m|][p - k] == s[p];
    }
  }

  /** An occurrence of `m` inside an occurrence of `r` is an occurrence of
      `m` in `s`. */
  lemma OccursWithin(s: string, r: string, lo: nat, m: string, j: nat)
    requires OccursAt(s, r, lo) && OccursAt(r, m, j)
    ensures OccursAt(s, m, lo + j)
  {
    SliceOfSlice(s, lo, lo + |r|, j, j + |m|);
  }

  /** Containment of substrings is transitive. */
  lemma ContainsTransitive(s: string, r: string, m: string)
    requires Contains(s, r) && Contains(r, m)
    ensures Contains(s, m)
  {
    var lo: nat :| lo <= |s| - |r| && OccursAt(s, r, lo);
    var j: nat :| j <= |r| - |m| && OccursAt(r, m, j);
    OccursWithin(s, r, lo, m, j);
    ContainsAt(s, m, lo + j);
  }

  /** `s.strip()` is a substring of `s`. */
  lemma StripContained(s: string)
    ensures Contains(s, Strip(s))
  {
    var r := Strip(s);
    var lo :| TrimmedAt(s, r, lo);
    assert OccursAt(s, r, lo);
    ContainsAt(s, r, lo);
  }

  /** A piece of a string that does not contain `m` does not contain `m`. */
  lemma NotContainedInPiece(s: string, r: string, m: string)
    requires Contains(s, r) && !Contains(s, m)
    ensures !Contains(r, m)
  {
    if Contains(r, m) {
      ContainsTransitive(s, r, m);
    }
  }

  // ---------------------------------------------------------------------
  // split and join
  // ---------------------------------------------------------------------

  /** Python `sep.join(parts)`. */
  function Join(parts: seq<string>, sep: string): string
  {
    if |parts| == 0 then ""
    else if |parts| == 1 then parts[0]
    else parts[0] + sep + Join(parts[1..], sep)
  }

  /** Python `s.split(sep)` for a non-empty `sep` (an empty one raises
      ValueError): the pieces between the non-overlapping occurrences of
      `sep`, found from left to right. */
  function Split(s: string, sep: string): (parts: seq<string>)
    requires sep != []
    ensures |parts| >= 1
    decreases |s|
  {
    match IndexOf(s, sep)
    case None => [s]
    case Some(i) =>
      IndexOfFound(s, sep);
      [s[..i]] + Split(s[i + |sep|..], sep)
  }
  /** One step of `Split`: the piece before the first separator, then the
      split of what follows it. */
  lemma SplitStep(s: string, sep: string, i: nat, head: string, rest: string)
    requires sep != [] && IndexOf(s, sep) == Some(i) && i + |sep| <= |s|
    requires head == s[..i] && rest == s[i + |sep|..]
    ensures Split(s, sep) == [head] + Split(rest, sep)
  {
  }
  lemma JoinCons(head: string, tail: seq<string>, sep: string)
    requires |tail| >= 1
    ensures Join([head] + tail, sep) == head + sep + Join(tail, sep)
  {
    assert ([head] + tail)[1..] == tail;
  }

  /** `s.split(sep)` has more than one part exactly when `sep` occurs in
      `s`. */
  lemma SplitCount(s: string, sep: string)
    requires sep != []
    ensures Contains(s, sep) <==> |Split(s, sep)| > 1
  {
    ContainsIff(s, sep);
  }
  /** Python `s.split(sep)[n]`. */
  function SplitNth(s: string, sep: string, n: nat): (r: string)
    requires sep != [] && n < |Split(s, sep)|
    ensures Contains(s, r)
    ensures !Contains(r, sep)
  {
    SplitPartOccurs(s, sep, n);
    SplitPartLacksSep(s, sep, n);
    Split(s, sep)[n]
  }

  /** Joining the pieces with the separator gives back the string. */
  lemma {:induction false} SplitJoin(s: string, sep: string)
    requires sep != []
    ensures Join(Split(s, sep), sep) == s
    decreases |s|
  {
    match IndexOf(s, sep)
    case None =>
      assert Split(s, sep) == [s];
    case Some(i) =>
      IndexOfFound(s, sep);
      var rest := s[i + |sep|..];
      SplitStep(s, sep, i, s[..i], rest);
      SplitJoin(rest, sep);
      JoinCons(s[..i], Split(rest, sep), sep);
      ThreePieces(s, i, i + |sep|);
  }

  /** No piece of a split contains the separator. */
  lemma {:induction false} SplitPartLacksSep(s: string, sep: string, n: nat)
    requires sep != [] && n < |Split(s, sep)|
    ensures !Contains(Split(s, sep)[n], sep)
    decreases |s|
  {
    match IndexOf(s, sep)
    case None =>
      assert Split(s, sep)[n] == s;
      ContainsIff(s, sep);
    case Some(i) =>
      IndexOfFirst(s, sep);
      var after := s[i + |sep|..];
      SplitStep(s, sep, i, s[..i], after);
      if n == 0 {
        assert Split(s, sep)[n] == s[..i];
        forall j: nat ensures !OccursAt(s[..i], sep, j) {
          OccursAtPrefix(s, sep, i, j);
        }
      } else {
        SplitPartLacksSep(after, sep, n - 1);
        assert Split(s, sep)[n] == Split(after, sep)[n - 1];
      }
  }

  /** Every piece of a split is a substring of the string split. */
  lemma {:induction false} SplitPartOccurs(s: string, sep: string, n: nat)
    requires sep != [] && n < |Split(s, sep)|
    ensures Contains(s, Split(s, sep)[n])
    decreases |s|
  {
    match IndexOf(s, sep)
    case None =>
      assert Split(s, sep)[n] == s == s[..|s|];
      ContainsPrefix(s, |s|);
    case Some(i) =>
      IndexOfFound(s, sep);
      var after := s[i + |sep|..];
      SplitStep(s, sep, i, s[..i], after);
      if n == 0 {
        assert Split(s, sep)[n] == s[..i];
        ContainsPrefix(s, i);
      } else {
        SplitPartOccurs(after, sep, n - 1);
        assert Split(s, sep)[n] == Split(after, sep)[n - 1];
        ContainsInSuffix(s, i + |sep|, Split(after, sep)[n - 1]);
      }
  }
  lemma ContainsPrefix(s: string, i: nat)
    requires i <= |s|
    ensures Contains(s, s[..i])
  {
    assert OccursAt(s, s[..i], 0);
  }
  lemma ContainsInSuffix(s: string, d: nat, m: string)
    requires d <= |s| && Contains(s[d..], m)
    ensures Contains(s, m)
  {
    var j: nat :| j <= |s[d..]| - |m| && OccursAt(s[d..], m, j);
    OccursAtShift(s, m, d, j);
    ContainsAt(s, m, d + j);
  }


  /** The first piece of a split runs up to the first occurrence of the
      separator, or to the end when there is none. */
  lemma SplitHeadAt(s: string, sep: string, n: nat)
    requires sep != [] && n <= |s|
    requires n == |s| || OccursAt(s, sep, n)
    requires forall j: nat :: j < n ==> !OccursAt(s, sep, j)
    ensures Split(s, sep)[0] == s[..n]
  {
    if n < |s| {
      FirstAtIsIndexOf(s, sep, n);
    } else {
      IndexOfSpec(s, sep);
      assert s[..n] == s;
    }
  }

  /** The first piece of the split of a slice `s[a..b]` runs up to the
      first occurrence of the separator that lies inside the slice. */
  lemma SplitHeadOfSlice(s: string, sep: string, a: nat, b: nat, e: nat)
    requires sep != [] && a <= e <= b <= |s|
    requires e == b || (OccursAt(s, sep, e) && e + |sep| <= b)
    requires forall k: nat :: a <= k < e ==> !OccursAt(s, sep, k)
    ensures Split(s[a..b], sep)[0] == s[a..e]
  {
    var t := s[a..b];
    var n := e - a;
    NoOccurrenceInSlice(s, sep, a, b, n);
    if e < b {
      OccursAtSlice(s, sep, a, b, n);
    }
    SplitHeadAt(t, sep, n);
    PrefixOfSlice(s, a, b, e);
  }
  lemma PrefixOfSlice(s: string, a: nat, b: nat, e: nat)
    requires a <= e <= b <= |s|
    ensures s[a..b][..e - a] == s[a..e]
  {
    SliceOfSlice(s, a, b, 0, e - a);
    assert s[a..b][..e - a] == s[a..b][0..e - a];
  }
  lemma NoOccurrenceInSlice(s: string, sep: string, a: nat, b: nat, n: nat)
    requires a + n <= b <= |s|
    requires forall k: nat :: a <= k < a + n ==> !OccursAt(s, sep, k)
    ensures forall j: nat :: j < n ==> !OccursAt(s[a..b], sep, j)
  {
    forall j: nat | j < n ensures !OccursAt(s[a..b], sep, j) {
      OccursAtSlice(s, sep, a, b, j);
    }
  }

  /** The second piece of a split runs from the end of the first
      occurrence of the separator up to the second occurrence, or to the
      end of the string when there is no second one. */
  lemma SplitSecondAt(s: string, sep: string, i: nat, e: nat)
    requires sep != [] && FirstAt(s, sep, i)
    requires i + |sep| <= e <= |s|
    requires e == |s| || OccursAt(s, sep, e)
    requires forall k: nat :: i + |sep| <= k < e ==> !OccursAt(s, sep, k)
    ensures |Split(s, sep)| >= 2 && Split(s, sep)[1] == s[i + |sep|..e]
  {
    FirstAtIsIndexOf(s, sep, i);
    var d := i + |sep|;
    var rest := s[d..|s|];
    assert rest == s[d..];
    SplitStep(s, sep, i, s[..i], rest);
    SplitHeadOfSlice(s, sep, d, |s|, e);
    assert Split(s, sep)[1] == Split(rest, sep)[0];
  }

  // ---------------------------------------------------------------------
  // endswith
  // ---------------------------------------------------------------------

  /** Python `s.endswith(suffix)`. */
  predicate EndsWith(s: string, suffix: string)
    ensures EndsWith(s, suffix) <==> exists stem :: s == stem + suffix
  {
    assert |suffix| <= |s| ==> s == s[..|s| - |suffix|] + s[|s| - |suffix|..];
    assert forall stem :: s == stem + suffix ==> s[|s| - |suffix|..] == suffix;
    |suffix| <= |s| && s[|s| - |suffix|..] == suffix
  }

  // ---------------------------------------------------------------------
  // str(n) for a non-negative integer
  // ---------------------------------------------------------------------

  predicate IsDigit(c: char) {
    '0' <= c <= '9'
  }

  predicate AllDigits(s: string) {
    forall k :: 0 <= k < |s| ==> IsDigit(s[k])
  }

  function DigitChar(d: nat): (c: char)
    requires d < 10
    ensures IsDigit(c) && c as int - '0' as int == d
  {
    ('0' as int + d) as char
  }

  /** The number a string of decimal digits denotes. */
  function DecimalValue(s: string): nat
    requires AllDigits(s)
  {
    if s == [] then 0
    else 10 * DecimalValue(s[..|s| - 1]) + (s[|s| - 1] as int - '0' as int)
  }

  /** Python `str(n)` for `n >= 0`: decimal digits without leading zeros,
      denoting `n`. */
  function NatToDecimal(n: nat): (s: string)
    ensures 1 <= |s| && AllDigits(s)
    ensures s[0] == '0' ==> s == "0"
    ensures DecimalValue(s) == n
  {
    if n < 10 then [DigitChar(n)]
    else
      var s := NatToDecimal(n / 10) + [DigitChar(n % 10)];
      assert s[..|s| - 1] == NatToDecimal(n / 10);
      s
  }
}
