/**
 * Python string semantics the sync engine relies on: `str.isspace`, `strip`, `split()`,
 * `split(sep)`, `join`, `replace`, `in`, decimal rendering and `int()`, and the ordering
 * `list.sort()` uses on strings (code-point lexicographic order).
 */
module Text {
  import opened Basics

  // ---------------------------------------------------------------- whitespace

  /** Python's `str.isspace` for one character. */
  predicate IsSpace(c: char) {
    || c == ' ' || ('\t' <= c <= '\r') || ('\U{1c}' <= c <= '\U{1f}')
    || c == '\U{85}' || c == '\U{a0}' || c == '\U{1680}' || ('\U{2000}' <= c <= '\U{200a}')
    || c == '\U{2028}' || c == '\U{2029}' || c == '\U{202f}' || c == '\U{205f}' || c == '\U{3000}'
  }

  predicate NoSpace(s: string) {
    forall i :: 0 <= i < |s| ==> !IsSpace(s[i])
  }

  /** No whitespace at either end: what `strip()` leaves. */
  predicate Unpadded(s: string) {
    s == [] || (!IsSpace(s[0]) && !IsSpace(s[|s| - 1]))
  }

  function TrimLeft(s: string): (r: string)
    ensures |r| <= |s| && r == s[|s| - |r|..]
    ensures r != [] ==> !IsSpace(r[0])
    ensures forall i :: 0 <= i < |s| - |r| ==> IsSpace(s[i])
  {
    if s != [] && IsSpace(s[0]) then TrimLeft(s[1..]) else s
  }

  function TrimRight(s: string): (r: string)
    ensures |r| <= |s| && r == s[..|r|]
    ensures r != [] ==> !IsSpace(r[|r| - 1])
    ensures forall i :: |r| <= i < |s| ==> IsSpace(s[i])
  {
    if s != [] && IsSpace(s[|s| - 1]) then TrimRight(s[..|s| - 1]) else s
  }

  /** Python's `str.strip()`: removes the whitespace at both ends and nothing else. */
  function Strip(s: string): (r: string)
    ensures Unpadded(r)
    ensures Unpadded(s) ==> r == s
  {
    TrimRight(TrimLeft(s))
  }

  /** Length of the leading run of non-whitespace characters. */
  function WordLen(s: string): (n: nat)
    ensures n <= |s| && NoSpace(s[..n])
    ensures n < |s| ==> IsSpace(s[n])
    ensures s != [] && !IsSpace(s[0]) ==> n > 0
  {
    if s == [] || IsSpace(s[0]) then 0 else 1 + WordLen(s[1..])
  }

  /** Python's `str.split()` without a separator: the maximal runs of non-whitespace. */
  function Words(s: string): (ws: seq<string>)
    ensures forall i :: 0 <= i < |ws| ==> ws[i] != [] && NoSpace(ws[i])
    decreases |s|
  {
    if s == [] then []
    else if IsSpace(s[0]) then Words(s[1..])
    else
      var n := WordLen(s);
      [s[..n]] + Words(s[n..])
  }

  /** Python's `sep.join(xs)`. */
  function Join(xs: seq<string>, sep: string): string {
    if |xs| == 0 then ""
    else if |xs| == 1 then xs[0]
    else xs[0] + sep + Join(xs[1..], sep)
  }

  /** Text in canonical form: unpadded, and every whitespace character is a single ' '
      followed by a visible character. */
  predicate Normalized(r: string) {
    && Unpadded(r)
    && forall i :: 0 <= i < |r| && IsSpace(r[i]) ==> r[i] == ' ' && i + 1 < |r| && !IsSpace(r[i + 1])
  }

  /** `' '.join(s.strip().split())` (cal_sync.py and mac_eventkit_bridge.py `_norm_text`). */
  function NormText(s: string): (r: string)
    ensures Normalized(r)
    ensures s == "" ==> r == ""
  {
    var ws := Words(Strip(s));
    JoinWordsNormalized(ws);
    Join(ws, " ")
  }

  lemma {:induction false} JoinWordsNormalized(ws: seq<string>)
    requires forall i :: 0 <= i < |ws| ==> ws[i] != [] && NoSpace(ws[i])
    ensures Normalized(Join(ws, " "))
    ensures ws != [] ==> Join(ws, " ") != [] && Join(ws, " ")[0] == ws[0][0]
  {
    if |ws| > 1 {
      JoinWordsNormalized(ws[1..]);
      var w, j := ws[0], Join(ws[1..], " ");
      var r := w + " " + j;
      assert Join(ws, " ") == r;
      forall i | 0 <= i < |r| && IsSpace(r[i])
        ensures r[i] == ' ' && i + 1 < |r| && !IsSpace(r[i + 1])
      {
        if i > |w| {
          assert r[i] == j[i - |w| - 1];
          assert i + 1 < |r| && r[i + 1] == j[i - |w|];
        } else if i == |w| {
          assert r[i + 1] == j[0];
        }
      }
    }
  }

  /** In normalised text, a whitespace character is a single `' '` and what follows it is
      normalised again. */
  lemma NormalizedRest(r: string, n: nat)
    requires Normalized(r) && n < |r| && IsSpace(r[n])
    ensures r[n] == ' ' && n + 1 < |r| && Normalized(r[n + 1..])
  {
    var rest := r[n + 1..];
    forall i | 0 <= i < |rest| && IsSpace(rest[i])
      ensures rest[i] == ' ' && i + 1 < |rest| && !IsSpace(rest[i + 1])
    {
      assert rest[i] == r[n + 1 + i];
    }
  }

  /** Normalised text is a fixed point of `NormText`. */
  lemma {:induction false} NormalizedWords(r: string)
    requires Normalized(r)
    ensures Join(Words(r), " ") == r
    ensures r != [] ==> Words(r) != []
    decreases |r|
  {
    if r != [] {
      var n := WordLen(r);
      assert Words(r) == [r[..n]] + Words(r[n..]);
      if n < |r| {
        NormalizedRest(r, n);
        var rest := r[n + 1..];
        assert Words(r[n..]) == Words(rest) by {
          assert r[n..][1..] == rest;
        }
        NormalizedWords(rest);
        assert r == r[..n] + " " + rest;
      } else {
        assert r[n..] == [];
      }
    }
  }

  /** `_norm_text` is idempotent. */
  lemma NormTextIdempotent(s: string)
    ensures NormText(NormText(s)) == NormText(s)
  {
    var r := NormText(s);
    NormalizedWords(r);
  }

  /** Visible characters, in order. */
  function Visible(s: string): string {
    if s == [] then [] else (if IsSpace(s[0]) then [] else [s[0]]) + Visible(s[1..])
  }

  lemma {:induction false} VisibleAppend(a: string, b: string)
    ensures Visible(a + b) == Visible(a) + Visible(b)
  {
    if a == [] {
      assert a + b == b;
    } else {
      assert (a + b)[0] == a[0];
      assert (a + b)[1..] == a[1..] + b;
      VisibleAppend(a[1..], b);
    }
  }

  lemma {:induction false} VisibleWords(s: string)
    ensures Visible(Join(Words(s), " ")) == Visible(s)
    decreases |s|
  {
    if s != [] {
      if IsSpace(s[0]) {
        VisibleWords(s[1..]);
        assert Words(s) == Words(s[1..]);
      } else {
        var n := WordLen(s);
        var w := s[..n];
        VisibleWords(s[n..]);
        assert s == w + s[n..];
        VisibleAppend(w, s[n..]);
        assert Words(s) == [w] + Words(s[n..]);
        VisibleJoinCons(w, Words(s[n..]));
      }
    }
  }

  /** A ' '-join shows the visible characters of its parts, in order. */
  lemma VisibleJoinCons(w: string, ws: seq<string>)
    ensures Visible(Join([w] + ws, " ")) == Visible(w) + Visible(Join(ws, " "))
  {
    if ws == [] {
      assert [w] + ws == [w];
    } else {
      var j := Join(ws, " ");
      JoinCons(w, ws, " ");
      VisibleAppend(w + " ", j);
      VisibleAppend(w, " ");
      assert Visible(" ") == [];
    }
  }

  lemma {:induction false} VisibleTrimLeft(s: string)
    ensures Visible(TrimLeft(s)) == Visible(s)
  {
    if s != [] && IsSpace(s[0]) {
      VisibleTrimLeft(s[1..]);
    }
  }

  lemma {:induction false} VisibleTrimRight(s: string)
    ensures Visible(TrimRight(s)) == Visible(s)
  {
    if s != [] && IsSpace(s[|s| - 1]) {
      var init := s[..|s| - 1];
      VisibleTrimRight(init);
      assert s == init + [s[|s| - 1]];
      VisibleAppend(init, [s[|s| - 1]]);
      assert Visible([s[|s| - 1]]) == [];
    }
  }

  lemma VisibleTrims(s: string)
    ensures Visible(Strip(s)) == Visible(s)
  {
    VisibleTrimLeft(s);
    VisibleTrimRight(TrimLeft(s));
  }

  /** `_norm_text` never alters case or order: only whitespace is removed or rewritten. */
  lemma NormTextKeepsVisible(s: string)
    ensures Visible(NormText(s)) == Visible(s)
  {
    VisibleTrims(s);
    VisibleWords(Strip(s));
  }

  // ---------------------------------------------------------------- substrings

  /** `t` occurs in `s` at index `k`. */
  predicate StartsAt(s: string, t: string, k: nat) {
    k + |t| <= |s| && s[k..k + |t|] == t
  }

  /** Python's `s.startswith(t)`. */
  predicate StartsWith(s: string, t: string) {
    StartsAt(s, t, 0)
  }

  /** The leftmost occurrence of `t` in `s` at or after index `k`. */
  function FindFrom(s: string, t: string, k: nat): (r: Option<nat>)
    ensures r.Some? ==> k <= r.value && StartsAt(s, t, r.value)
    ensures r.Some? ==> forall j :: k <= j < r.value ==> !StartsAt(s, t, j)
    ensures r.None? ==> forall j :: k <= j ==> !StartsAt(s, t, j)
    decreases |s| - k
  {
    if k + |t| > |s| then None
    else if StartsAt(s, t, k) then Some(k)
    else FindFrom(s, t, k + 1)
  }

  /** Python's `s.find(t)` as an option: the leftmost occurrence of `t` in `s`. */
  function Find(s: string, t: string): Option<nat> {
    FindFrom(s, t, 0)
  }

  /** Python's `t in s`. */
  predicate Contains(s: string, t: string) {
    Find(s, t).Some?
  }

  /** A string contains whatever is spliced into it. */
  lemma ContainsInside(a: string, m: string, b: string)
    ensures Contains(a + m + b, m)
  {
    var s := a + m + b;
    assert s[|a|..|a| + |m|] == m;
    assert StartsAt(s, m, |a|);
  }

  /** Whatever a part contains, the whole contains. */
  lemma ContainsWithin(a: string, x: string, b: string, m: string)
    requires Contains(x, m)
    ensures Contains(a + x + b, m)
  {
    var p := Find(x, m).value;
    var s := a + x + b;
    assert s[|a| + p..|a| + p + |m|] == x[p..p + |m|] by {
      assert s[|a|..|a| + |x|] == x;
    }
    assert StartsAt(s, m, |a| + p);
  }

  lemma FindFirst(s: string, t: string, k: nat)
    requires StartsAt(s, t, k)
    requires forall j :: 0 <= j < k ==> !StartsAt(s, t, j)
    ensures Find(s, t) == Some(k)
  {
  }

  lemma StartsAtChar(s: string, c: char, k: nat)
    ensures StartsAt(s, [c], k) <==> k < |s| && s[k] == c
  {
    if k < |s| {
      assert s[k..k + 1] == [s[k]];
    }
  }

  /** A one-character needle occurs exactly when the character does. */
  lemma ContainsChar(s: string, c: char)
    ensures Contains(s, [c]) <==> c in s
  {
    if c in s {
      var k :| 0 <= k < |s| && s[k] == c;
      StartsAtChar(s, c, k);
    }
    if Contains(s, [c]) {
      StartsAtChar(s, c, Find(s, [c]).value);
    }
  }

  /** Python's `str.split(sep)` for a non-empty separator: cut at every leftmost
      non-overlapping occurrence. */
  function Split(s: string, sep: string): (parts: seq<string>)
    requires sep != []
    ensures |parts| >= 1
    decreases |s|
  {
    match Find(s, sep)
    case None => [s]
    case Some(i) => [s[..i]] + Split(s[i + |sep|..], sep)
  }

  /** Python's `s.replace(target, with)`, which equals `with.join(s.split(target))`. */
  function Replace(s: string, target: string, with: string): string
    requires target != []
  {
    Join(Split(s, target), with)
  }

  /** No occurrence of `sep` starts inside `x`, even one running on into a following `sep`. */
  predicate Clean(x: string, sep: string) {
    forall j :: 0 <= j < |x| ==> !StartsAt(x + sep, sep, j)
  }

  lemma CleanWithoutFirstChar(x: string, sep: string)
    requires sep != [] && sep[0] !in x
    ensures Clean(x, sep)
  {
    forall j | 0 <= j < |x| ensures !StartsAt(x + sep, sep, j) {
      assert (x + sep)[j] == x[j];
    }
  }

  /** Occurrences inside a prefix are occurrences in the whole string. */
  lemma StartsAtPrefix(s: string, u: string, t: string, j: nat)
    requires j + |t| <= |s|
    ensures StartsAt(s, t, j) <==> StartsAt(s + u, t, j)
  {
    assert (s + u)[j..j + |t|] == s[j..j + |t|];
  }

  lemma {:induction false} CleanNoOccurrence(x: string, sep: string)
    requires sep != [] && Clean(x, sep)
    ensures Find(x, sep).None?
  {
    if Find(x, sep).Some? {
      var i := Find(x, sep).value;
      StartsAtPrefix(x, sep, sep, i);
      assert false;
    }
  }

  lemma JoinCons(x: string, xs: seq<string>, sep: string)
    requires xs != []
    ensures Join([x] + xs, sep) == x + sep + Join(xs, sep)
  {
    assert ([x] + xs)[1..] == xs;
  }

  /** Splitting a join recovers the parts when no separator can start inside one. */
  lemma {:induction false} SplitJoin(xs: seq<string>, sep: string)
    requires sep != [] && |xs| >= 1
    requires forall i :: 0 <= i < |xs| ==> Clean(xs[i], sep)
    ensures Split(Join(xs, sep), sep) == xs
  {
    if |xs| == 1 {
      CleanNoOccurrence(xs[0], sep);
    } else {
      var x, rest := xs[0], Join(xs[1..], sep);
      var s := x + sep + rest;
      assert Join(xs, sep) == s;
      forall j | 0 <= j < |x| ensures !StartsAt(s, sep, j) {
        StartsAtPrefix(x + sep, rest, sep, j);
      }
      assert s[|x|..|x| + |sep|] == sep;
      FindFirst(s, sep, |x|);
      assert s[|x| + |sep|..] == rest && s[..|x|] == x;
      SplitJoin(xs[1..], sep);
      assert xs == [x] + xs[1..];
    }
  }

  // ---------------------------------------------------------------- per-character maps

  /** Replace every character `c` of `s` by `f(c)`. */
  function FlatMap(f: char -> string, s: string): string {
    if s == [] then [] else f(s[0]) + FlatMap(f, s[1..])
  }

  lemma {:induction false} FlatMapAppend(f: char -> string, a: string, b: string)
    ensures FlatMap(f, a + b) == FlatMap(f, a) + FlatMap(f, b)
  {
    if a == [] {
      assert a + b == b;
    } else {
      assert (a + b)[0] == a[0];
      assert (a + b)[1..] == a[1..] + b;
      FlatMapAppend(f, a[1..], b);
    }
  }

  lemma {:induction false} FlatMapIdentity(f: char -> string, s: string)
    requires forall i :: 0 <= i < |s| ==> f(s[i]) == [s[i]]
    ensures FlatMap(f, s) == s
  {
    if s != [] {
      FlatMapIdentity(f, s[1..]);
    }
  }

  /** The per-character map that rewrites `c` as `r` and keeps every other character. */
  function Substitute(c: char, r: string): char -> string {
    x => if x == c then r else [x]
  }

  /** Replacing a one-character string is the per-character map that rewrites that character. */
  lemma {:induction false} ReplaceChar(s: string, c: char, r: string)
    ensures Replace(s, [c], r) == FlatMap(Substitute(c, r), s)
    decreases |s|
  {
    match Find(s, [c])
    case None =>
      ContainsChar(s, c);
      FlatMapIdentity(Substitute(c, r), s);
    case Some(i) =>
      ReplaceCharStep(s, c, r, i);
      BeforeFind(s, c, i);
      SubstituteStep(s, c, r, i);
      ReplaceChar(s[i + 1..], c, r);
  }

  lemma ReplaceCharStep(s: string, c: char, r: string, i: nat)
    requires Find(s, [c]) == Some(i)
    ensures i < |s| && Replace(s, [c], r) == s[..i] + r + Replace(s[i + 1..], [c], r)
  {
    var pre, post := s[..i], s[i + 1..];
    assert Split(s, [c]) == [pre] + Split(post, [c]);
    JoinCons(pre, Split(post, [c]), r);
  }

  lemma SubstituteStep(s: string, c: char, r: string, i: nat)
    requires i < |s| && s[i] == c && c !in s[..i]
    ensures FlatMap(Substitute(c, r), s) == s[..i] + r + FlatMap(Substitute(c, r), s[i + 1..])
  {
    SplitAt(s, i);
    SubstituteAround(s[..i], c, s[i + 1..], r);
  }

  lemma SplitAt<T>(s: seq<T>, i: nat)
    requires i < |s|
    ensures s == s[..i] + [s[i]] + s[i + 1..]
  {
  }

  lemma BeforeFind(s: string, c: char, i: nat)
    requires Find(s, [c]) == Some(i)
    ensures i < |s| && s[i] == c && c !in s[..i]
  {
    StartsAtChar(s, c, i);
    forall j | 0 <= j < i ensures s[j] != c {
      StartsAtChar(s, c, j);
    }
  }

  lemma {:induction false} SubstituteAbsent(s: string, c: char, r: string)
    requires c !in s
    ensures FlatMap(Substitute(c, r), s) == s
  {
    if s != [] {
      SubstituteAbsent(s[1..], c, r);
    }
  }

  lemma SubstituteAround(pre: string, c: char, post: string, r: string)
    requires c !in pre
    ensures FlatMap(Substitute(c, r), pre + [c] + post) == pre + r + FlatMap(Substitute(c, r), post)
  {
    var f := Substitute(c, r);
    SubstituteAbsent(pre, c, r);
    assert pre + [c] + post == pre + ([c] + post);
    FlatMapAppend(f, pre, [c] + post);
    assert ([c] + post)[1..] == post;
  }

  // ---------------------------------------------------------------- decimal numbers

  predicate IsDigit(c: char) {
    '0' <= c <= '9'
  }

  predicate AllDigits(s: string) {
    forall i :: 0 <= i < |s| ==> IsDigit(s[i])
  }

  function DigitChar(d: nat): (c: char)
    requires d < 10
    ensures IsDigit(c)
  {
    ('0' as int + d) as char
  }

  /** The number a string of decimal digits denotes. */
  function DigitsValue(s: string): nat
    requires AllDigits(s)
  {
    if s == [] then 0 else DigitsValue(s[..|s| - 1]) * 10 + (s[|s| - 1] as int - '0' as int)
  }

  /** Python's `str(n)` for a natural number. */
  function NatToString(n: nat): (s: string)
    ensures s != [] && AllDigits(s)
  {
    if n < 10 then [DigitChar(n)] else NatToString(n / 10) + [DigitChar(n % 10)]
  }

  /** Python's `str(i)` for an integer. */
  function IntToString(i: int): string {
    if i < 0 then "-" + NatToString(-i) else NatToString(i)
  }

  function Pow10(w: nat): (p: nat)
    ensures p >= 1
  {
    if w == 0 then 1 else 10 * Pow10(w - 1)
  }

  /** `n` written with exactly `w` digits, zero-padded on the left (`%0wd`). */
  function Pad(n: nat, w: nat): (s: string)
    ensures |s| == w && AllDigits(s)
  {
    if w == 0 then [] else Pad(n / 10, w - 1) + [DigitChar(n % 10)]
  }

  lemma {:induction false} NatToStringValue(n: nat)
    ensures DigitsValue(NatToString(n)) == n
  {
    if n >= 10 {
      NatToStringValue(n / 10);
      var s := NatToString(n);
      assert s[..|s| - 1] == NatToString(n / 10);
    }
  }

  lemma {:induction false} PadValue(n: nat, w: nat)
    requires n < Pow10(w)
    ensures DigitsValue(Pad(n, w)) == n
  {
    if w > 0 {
      assert n / 10 < Pow10(w - 1);
      PadValue(n / 10, w - 1);
      var s := Pad(n, w);
      assert s[..|s| - 1] == Pad(n / 10, w - 1);
    }
  }

  /** Python's `int(s)` for the forms the listing produces: optional surrounding whitespace,
      an optional sign and at least one ASCII digit. */
  function ParseInt(s: string): Option<int> {
    ParseSigned(Strip(s))
  }

  function ParseSigned(t: string): Option<int> {
    if t != [] && (t[0] == '-' || t[0] == '+') then
      match ParseUnsigned(t[1..])
      case None => None
      case Some(v) => Some(if t[0] == '-' then -(v as int) else v as int)
    else ParseUnsigned(t)
  }

  /** A non-empty run of ASCII digits and its value. */
  function ParseUnsigned(t: string): Option<nat> {
    if t != [] && AllDigits(t) then Some(DigitsValue(t)) else None
  }

  /** `int(str(i)) == i`. */
  lemma ParseIntRoundTrip(i: int)
    ensures ParseInt(IntToString(i)) == Some(i)
  {
    var n: nat := if i < 0 then -i else i;
    var d := NatToString(n);
    NatToStringValue(n);
    if i < 0 {
      ParseNegative(d);
      UnpaddedNumber(d, "-");
      assert IntToString(i) == "-" + d;
    } else {
      ParseDigits(d);
      UnpaddedNumber(d, "");
      assert IntToString(i) == "" + d;
    }
  }

  lemma NumberCharNotSpace(c: char)
    requires IsDigit(c) || c == '-'
    ensures !IsSpace(c)
  {
  }

  lemma UnpaddedNumber(d: string, sign: string)
    requires d != [] && AllDigits(d) && (sign == "" || sign == "-")
    ensures Unpadded(sign + d)
  {
    var s := sign + d;
    NumberCharNotSpace(d[|d| - 1]);
    NumberCharNotSpace(d[0]);
    assert s[|s| - 1] == d[|d| - 1];
    assert s[0] == (if sign == "" then d[0] else '-');
  }

  lemma ParseDigits(d: string)
    requires d != [] && AllDigits(d)
    ensures ParseSigned(d) == Some(DigitsValue(d))
  {
    assert IsDigit(d[0]);
  }

  lemma ParseNegative(d: string)
    requires d != [] && AllDigits(d)
    ensures ParseSigned("-" + d) == Some(-(DigitsValue(d) as int))
  {
    assert ("-" + d)[1..] == d;
  }

  // ---------------------------------------------------------------- ordering

  /** Python's `<=` on strings: lexicographic by code point. */
  predicate LessEq(a: string, b: string)
    decreases |a|
  {
    a == [] || (b != [] && (a[0] < b[0] || (a[0] == b[0] && LessEq(a[1..], b[1..]))))
  }

  lemma LessEqReflexive(a: string)
    ensures LessEq(a, a)
  {
  }

  lemma LessEqTotal(a: string, b: string)
    ensures LessEq(a, b) || LessEq(b, a)
  {
  }

  lemma LessEqAntisymmetric(a: string, b: string)
    requires LessEq(a, b) && LessEq(b, a)
    ensures a == b
  {
    if a != [] && b != [] {
      LessEqAntisymmetric(a[1..], b[1..]);
      assert a == [a[0]] + a[1..] && b == [b[0]] + b[1..];
    }
  }

  lemma LessEqTransitive(a: string, b: string, c: string)
    requires LessEq(a, b) && LessEq(b, c)
    ensures LessEq(a, c)
  {
  }

  predicate Sorted(s: seq<string>) {
    forall i, j :: 0 <= i < j < |s| ==> LessEq(s[i], s[j])
  }

  function Insert(x: string, s: seq<string>): (r: seq<string>)
    ensures multiset(r) == multiset(s) + multiset{x}
  {
    if s == [] then [x]
    else if LessEq(x, s[0]) then [x] + s
    else
      assert s == [s[0]] + s[1..];
      [s[0]] + Insert(x, s[1..])
  }

  /** A head no greater than any element of a sorted tail keeps the sequence sorted. */
  lemma ConsSorted(h: string, t: seq<string>)
    requires Sorted(t) && forall z :: z in t ==> LessEq(h, z)
    ensures Sorted([h] + t)
  {
    var r := [h] + t;
    forall i, j | 0 <= i < j < |r| ensures LessEq(r[i], r[j]) {
      assert r[j] == t[j - 1] && r[j] in t;
      if i > 0 { assert r[i] == t[i - 1]; }
    }
  }

  /** The elements of `Insert(x, s)` are `x` and the elements of `s`. */
  lemma InsertMembers(x: string, s: seq<string>, z: string)
    requires z in Insert(x, s)
    ensures z == x || z in s
  {
    assert z in multiset(Insert(x, s));
  }

  lemma {:induction false} InsertSorted(x: string, s: seq<string>)
    requires Sorted(s)
    ensures Sorted(Insert(x, s))
  {
    if s != [] {
      if LessEq(x, s[0]) {
        forall z | z in s ensures LessEq(x, z) {
          HeadBound(s);
          LessEqTransitive(x, s[0], z);
        }
        ConsSorted(x, s);
      } else {
        LessEqTotal(x, s[0]);
        SortedTail(s);
        InsertSorted(x, s[1..]);
        var t := Insert(x, s[1..]);
        HeadBound(s);
        forall z | z in t ensures LessEq(s[0], z) {
          InsertMembers(x, s[1..], z);
          if z != x {
            assert z in s;
          }
        }
        ConsSorted(s[0], t);
        assert Insert(x, s) == [s[0]] + t;
      }
    }
  }

  lemma HeadBound(s: seq<string>)
    requires Sorted(s) && s != []
    ensures forall z :: z in s ==> LessEq(s[0], z)
  {
    forall z | z in s ensures LessEq(s[0], z) {
      var k :| 0 <= k < |s| && s[k] == z;
      if k == 0 { LessEqReflexive(z); }
    }
  }

  /** Python's `sorted(xs)` on strings (insertion sort; equal strings are identical). */
  function Sort(xs: seq<string>): (r: seq<string>)
    ensures Sorted(r) && multiset(r) == multiset(xs)
  {
    if xs == [] then []
    else
      var t := Sort(xs[1..]);
      InsertSorted(xs[0], t);
      assert xs == [xs[0]] + xs[1..];
      Insert(xs[0], t)
  }

  /** A sorted order of a multiset of strings is unique. */
  lemma {:induction false} SortedUnique(a: seq<string>, b: seq<string>)
    requires Sorted(a) && Sorted(b) && multiset(a) == multiset(b)
    ensures a == b
  {
    assert |a| == |multiset(a)| == |multiset(b)| == |b|;
    if a != [] {
      SameHead(a, b);
      SortedTail(a);
      SortedTail(b);
      TailMultiset(a);
      TailMultiset(b);
      SortedUnique(a[1..], b[1..]);
      assert a == [a[0]] + a[1..] && b == [b[0]] + b[1..];
    }
  }

  lemma SameHead(a: seq<string>, b: seq<string>)
    requires Sorted(a) && Sorted(b) && multiset(a) == multiset(b) && a != [] && b != []
    ensures a[0] == b[0]
  {
    assert a[0] in multiset(b) && b[0] in multiset(a);
    HeadBound(a);
    HeadBound(b);
    LessEqAntisymmetric(a[0], b[0]);
  }

  lemma SortedTail(s: seq<string>)
    requires Sorted(s) && s != []
    ensures Sorted(s[1..])
  {
    forall i, j | 0 <= i < j < |s| - 1 ensures LessEq(s[1..][i], s[1..][j]) {
      assert s[1..][i] == s[i + 1] && s[1..][j] == s[j + 1];
    }
  }

  lemma TailMultiset<T>(s: seq<T>)
    requires s != []
    ensures multiset(s[1..]) == multiset(s) - multiset{s[0]}
  {
    assert s == [s[0]] + s[1..];
  }

  /** Sorting depends only on the multiset of its input. */
  lemma SortPermutation(xs: seq<string>, ys: seq<string>)
    requires multiset(xs) == multiset(ys)
    ensures Sort(xs) == Sort(ys)
  {
    SortedUnique(Sort(xs), Sort(ys));
  }
}
