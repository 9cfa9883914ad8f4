/** The two list/string operations of Python's `str` that the driver relies
    on: `sep.join(parts)` and `s.split(sep)` with a non-empty separator. */
module Text {
  import opened Wrappers

  /** `sep.join(parts)`: the parts in order with one separator between
      neighbours; the empty list joins to the empty string. */
  function Join(parts: seq<string>, sep: string): (r: string)
    ensures |parts| > 0 ==> parts[0] <= r
  {
    if |parts| == 0 then ""
    else if |parts| == 1 then parts[0]
    else parts[0] + sep + Join(parts[1..], sep)
  }

  /** `sep` occurs in `s` starting at index `i`. */
  predicate Occurs(s: string, sep: string, i: nat) {
    i + |sep| <= |s| && s[i..i + |sep|] == sep
  }

  predicate Contains(s: string, sep: string) {
    exists i: nat :: i <= |s| && Occurs(s, sep, i)
  }

  /** No proper suffix of `sep` is also a prefix of it, so two occurrences of
      `sep` can never overlap. */
  predicate Unbordered(sep: string) {
    forall d :: 0 < d < |sep| ==> sep[d..] != sep[..|sep| - d]
  }

  /** The leftmost occurrence of `sep` at or after `from`. */
  function FirstOccurrence(s: string, sep: string, from: nat): (r: Option<nat>)
    ensures r.Some? ==> from <= r.value && Occurs(s, sep, r.value)
    ensures r.Some? ==> forall j: nat :: from <= j < r.value ==> !Occurs(s, sep, j)
    ensures r.None? ==> forall j: nat :: from <= j ==> !Occurs(s, sep, j)
    decreases |s| - from
  {
    if from + |sep| > |s| then None
    else if Occurs(s, sep, from) then Some(from)
    else FirstOccurrence(s, sep, from + 1)
  }

  /** `s.split(sep)`: cut at each occurrence of `sep`, scanning left to right
      without overlap; `k` occurrences give `k + 1` pieces. */
  function Split(s: string, sep: string): (parts: seq<string>)
    requires |sep| > 0
    ensures |parts| >= 1
    decreases |s|
  {
    match FirstOccurrence(s, sep, 0)
    case None => [s]
    case Some(i) => [s[..i]] + Split(s[i + |sep|..], sep)
  }

  /** Re-joining the pieces with the separator gives back the text. */
  lemma {:induction false} SplitJoin(s: string, sep: string)
    requires |sep| > 0
    ensures Join(Split(s, sep), sep) == s
    decreases |s|
  {
    match FirstOccurrence(s, sep, 0)
    case None =>
      assert Split(s, sep) == [s];
    case Some(i) =>
      var rest := s[i + |sep|..];
      var tail := Split(rest, sep);
      assert Split(s, sep) == [s[..i]] + tail;
      assert ([s[..i]] + tail)[1..] == tail;
      assert Join([s[..i]] + tail, sep) == s[..i] + sep + Join(tail, sep);
      SplitJoin(rest, sep);
      assert s == s[..i] + sep + rest;
  }

  /** No piece of a split contains the separator. */
  lemma {:induction false} SplitPiecesClean(s: string, sep: string)
    requires |sep| > 0
    ensures forall p :: p in Split(s, sep) ==> !Contains(p, sep)
    decreases |s|
  {
    match FirstOccurrence(s, sep, 0)
    case None =>
      assert Split(s, sep) == [s];
    case Some(i) =>
      var rest := s[i + |sep|..];
      SplitPiecesClean(rest, sep);
      var head := s[..i];
      forall k: nat | k <= |head| ensures Occurs(head, sep, k) ==> Occurs(s, sep, k) {
        if k + |sep| <= |head| {
          assert head[k..k + |sep|] == s[k..k + |sep|];
        }
      }
  }

  /** For a separator whose occurrences cannot overlap, splitting is the only
      way to cut a text into separator-free pieces that join back to it. */
  lemma {:induction false} SplitUnique(parts: seq<string>, sep: string)
    requires |sep| > 0 && Unbordered(sep)
    requires |parts| >= 1
    requires forall p :: p in parts ==> !Contains(p, sep)
    ensures Split(Join(parts, sep), sep) == parts
    decreases |parts|
  {
    var s := Join(parts, sep);
    if |parts| == 1 {
      assert s == parts[0];
      assert !Contains(s, sep);
      assert FirstOccurrence(s, sep, 0).None?;
    } else {
      var p := parts[0];
      var rest := parts[1..];
      assert s == p + sep + Join(rest, sep);
      assert p in parts;
      assert Occurs(s, sep, |p|) by {
        assert s[|p|..|p| + |sep|] == sep;
      }
      forall k: nat | k < |p| ensures !Occurs(s, sep, k) {
        NoEarlierOccurrence(p, sep, Join(rest, sep), k);
      }
      var first := FirstOccurrence(s, sep, 0);
      assert first == Some(|p|);
      assert s[..|p|] == p;
      assert s[|p| + |sep|..] == Join(rest, sep);
      forall q | q in rest ensures !Contains(q, sep) {
        assert q in parts;
      }
      SplitUnique(rest, sep);
    }
  }

  /** In `p + sep + t`, with `p` free of `sep` and `sep` unbordered, `sep`
      does not occur before index `|p|`. */
  lemma NoEarlierOccurrence(p: string, sep: string, t: string, k: nat)
    requires |sep| > 0 && Unbordered(sep)
    requires !Contains(p, sep)
    requires k < |p|
    ensures !Occurs(p + sep + t, sep, k)
  {
    var s := p + sep + t;
    if k + |sep| <= |p| {
      assert p[k..k + |sep|] == s[k..k + |sep|];
      assert !Occurs(p, sep, k);
    } else if k + |sep| <= |s| {
      var d := |p| - k;
      assert s[k..k + |sep|][d..] == sep[..|sep| - d];
    }
  }
}
