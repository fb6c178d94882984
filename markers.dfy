/**
 * `re.findall(r'\[SYNC_UID:([^\]]+)\]', description)`: scanning left to right, a match
 * starts at `[SYNC_UID:`, takes one or more characters other than `]` and ends at the
 * first `]`; the scan resumes after it. The captured keys are returned in order.
 */
module Markers {
  import opened Basics
  import opened Text
  import Identity

  const Open: string := "[SYNC_UID:"

  /** The first `]` at or after `q`. */
  function CloseFrom(s: string, q: nat): (r: Option<nat>)
    ensures r.Some? ==> q <= r.value < |s| && s[r.value] == ']'
    ensures r.Some? ==> forall j :: q <= j < r.value ==> s[j] != ']'
    ensures r.None? ==> forall j :: q <= j < |s| ==> s[j] != ']'
    decreases |s| - q
  {
    if q >= |s| then None
    else if s[q] == ']' then Some(q)
    else CloseFrom(s, q + 1)
  }

  /** The index of the closing `]` of a match starting at `p`, if one starts there. */
  function MatchAt(s: string, p: nat): (r: Option<nat>)
    ensures r.Some? ==> p + |Open| < r.value < |s| && s[r.value] == ']'
  {
    if StartsAt(s, Open, p) then
      match CloseFrom(s, p + |Open|)
      case Some(q) => if q > p + |Open| then Some(q) else None
      case None => None
    else None
  }

  /** The keys of the matches found by a scan starting at `p`. */
  function MarkersFrom(s: string, p: nat): (keys: seq<string>)
    decreases |s| - p
  {
    if p >= |s| then []
    else
      match MatchAt(s, p)
      case Some(q) => [s[p + |Open|..q]] + MarkersFrom(s, q + 1)
      case None => MarkersFrom(s, p + 1)
  }

  function Markers(s: string): seq<string> {
    MarkersFrom(s, 0)
  }

  /** Every key found is non-empty and free of `]`. */
  lemma {:induction false} MarkersShape(s: string, p: nat)
    ensures forall i :: 0 <= i < |MarkersFrom(s, p)| ==> MarkersFrom(s, p)[i] != [] && ']' !in MarkersFrom(s, p)[i]
    decreases |s| - p
  {
    if p < |s| {
      match MatchAt(s, p)
      case Some(q) =>
        var k := s[p + |Open|..q];
        assert forall j :: 0 <= j < |k| ==> k[j] == s[p + |Open| + j];
        MarkersShape(s, q + 1);
      case None =>
        MarkersShape(s, p + 1);
    }
  }

  lemma {:induction false} StartsAtContains(s: string, t: string, p: nat)
    requires StartsAt(s, t, p)
    ensures Contains(s, t)
  {
  }

  /** Every key found comes from a complete `[SYNC_UID:key]` in the text. */
  lemma {:induction false} MarkersSound(s: string, p: nat)
    ensures forall i :: 0 <= i < |MarkersFrom(s, p)| ==> Contains(s, Identity.Marker(MarkersFrom(s, p)[i]))
    decreases |s| - p
  {
    if p < |s| {
      match MatchAt(s, p)
      case Some(q) =>
        var k := s[p + |Open|..q];
        assert s[p..q + 1] == Identity.Marker(k) by {
          assert s[p..p + |Open|] == Open;
        }
        StartsAtContains(s, Identity.Marker(k), p);
        MarkersSound(s, q + 1);
      case None =>
        MarkersSound(s, p + 1);
    }
  }

  /** Positions without a `[` start no match and are skipped. */
  lemma {:induction false} SkipPlain(s: string, p: nat, e: nat)
    requires p <= e <= |s|
    requires forall j :: p <= j < e ==> s[j] != '['
    ensures MarkersFrom(s, p) == MarkersFrom(s, e)
    decreases e - p
  {
    if p < e {
      assert s[p] != Open[0];
      assert MatchAt(s, p).None?;
      SkipPlain(s, p + 1, e);
    }
  }

  lemma {:induction false} StartsAtParts(s: string, a: string, b: string, p: nat)
    requires StartsAt(s, a + b, p)
    ensures StartsAt(s, a, p) && StartsAt(s, b, p + |a|)
  {
    assert s[p..p + |a|] == s[p..p + |a + b|][..|a|];
    assert s[p + |a|..p + |a| + |b|] == s[p..p + |a + b|][|a|..];
  }

  lemma {:induction false} CloseAt(s: string, q: nat, r: nat)
    requires q <= r < |s| && s[r] == ']'
    requires forall j :: q <= j < r ==> s[j] != ']'
    ensures CloseFrom(s, q) == Some(r)
  {
  }

  /** A complete marker with a non-empty key free of `]` starts a match that closes at the
      marker's own `]` and captures the key. */
  lemma MatchAtMarker(s: string, p: nat, k: string)
    requires k != [] && ']' !in k
    requires StartsAt(s, Identity.Marker(k), p)
    ensures MatchAt(s, p) == Some(p + |Open| + |k|)
    ensures s[p + |Open|..p + |Open| + |k|] == k
  {
    assert Identity.Marker(k) == Open + (k + "]");
    StartsAtParts(s, Open, k + "]", p);
    StartsAtParts(s, k, "]", p + |Open|);
    var q := p + |Open| + |k|;
    assert s[p + |Open|..q] == k;
    assert s[q..q + 1] == "]";
    forall j | p + |Open| <= j < q ensures s[j] != ']' {
      assert s[j] == k[j - p - |Open|];
    }
    CloseAt(s, p + |Open|, q);
  }

  /** A complete marker with a non-empty key free of `]` is matched as a whole. */
  lemma MatchMarker(s: string, p: nat, k: string)
    requires k != [] && ']' !in k
    requires StartsAt(s, Identity.Marker(k), p)
    ensures MarkersFrom(s, p) == [k] + MarkersFrom(s, p + |Identity.Marker(k)|)
  {
    MatchAtMarker(s, p, k);
    MarkersStep(s, p, p + |Open| + |k|);
    assert |Identity.Marker(k)| == |Open| + |k| + 1;
  }

  lemma MarkersStep(s: string, p: nat, q: nat)
    requires p < |s| && MatchAt(s, p) == Some(q)
    ensures MarkersFrom(s, p) == [s[p + |Open|..q]] + MarkersFrom(s, q + 1)
  {
    MarkersUnfold(s, p);
  }

  /** One step of the scan, whatever the match at `p` is. */
  lemma MarkersUnfold(s: string, p: nat)
    requires p < |s|
    ensures MarkersFrom(s, p) == match MatchAt(s, p)
                                 case Some(q) => [s[p + |Open|..q]] + MarkersFrom(s, q + 1)
                                 case None => MarkersFrom(s, p + 1)
  {
  }

  lemma MarkersSkip(s: string, p: nat)
    requires p < |s| && MatchAt(s, p).None?
    ensures MarkersFrom(s, p) == MarkersFrom(s, p + 1)
  {
    MarkersUnfold(s, p);
  }

  lemma MarkersEnd(s: string, p: nat)
    requires p >= |s|
    ensures MarkersFrom(s, p) == []
  {
  }

  /** A marker at the end of text without `[` is the only key found. */
  lemma {:induction false} MarkerAfterPlain(a: string, k: string)
    requires '[' !in a && k != [] && ']' !in k
    ensures Markers(a + Identity.Marker(k)) == [k]
  {
    var m := Identity.Marker(k);
    var s := a + m;
    assert forall j :: 0 <= j < |a| ==> s[j] == a[j];
    SkipPlain(s, 0, |a|);
    assert s[|a|..|a| + |m|] == m;
    MatchMarker(s, |a|, k);
    MarkersEnd(s, |a| + |m|);
  }

  lemma SecondChar(d: string, t: string, i: nat)
    requires StartsAt(d, t, i) && |t| > 1
    ensures d[i + 1] == t[1]
  {
    assert d[i..i + |t|][1] == t[1];
  }

  /** A description marked with a key yields exactly that key, provided the original
      text has no `[` and the key is non-empty and free of `]`. */
  lemma {:induction false} MarkedDescriptionKeys(d: string, k: string)
    requires '[' !in d && k != [] && ']' !in k
    ensures Markers(Identity.MarkDescription(d, k)) == [k]
  {
    var m := Identity.Marker(k);
    if d == "" {
      MarkerAfterPlain("", k);
      assert "" + m == m;
    } else {
      if Contains(d, " " + m) {
        SecondChar(d, " " + m, Find(d, " " + m).value);
        assert false;
      }
      MarkerAfterPlain(d + " ", k);
    }
  }

  /** An unclosed `[SYNC_UID:` earlier in the text swallows a later marker: the key found
      is the text up to the marker's `]`, and the marker's own key is not found. */
  lemma UnclosedSwallows()
    ensures Markers("[SYNC_UID:a" + " " + Identity.Marker("k")) == ["a [SYNC_UID:k"]
  {
    var s := "[SYNC_UID:a" + " " + Identity.Marker("k");
    var tail := "a [SYNC_UID:k";
    assert s == Open + tail + "]";
    assert |s| == 24;
    assert s[..|Open|] == Open;
    assert ']' !in tail;
    forall j | |Open| <= j < |s| - 1 ensures s[j] != ']' {
      assert s[j] == tail[j - |Open|];
    }
    CloseAt(s, |Open|, |s| - 1);
    assert s[|Open|..|s| - 1] == tail;
    assert MatchAt(s, 0) == Some(|s| - 1);
    MarkersStep(s, 0, |s| - 1);
    MarkersEnd(s, |s|);
  }
}
