/** The Python string operations that the Netflix row normaliser relies on:
    `str.strip()`, `str.split(',')`, `str.lower()`, the substring test `in`,
    `int()` applied to a string, and the first match of the regular
    expression `(\d+)`.  The CSV file is read as Latin-1, so the only decimal
    digits that can occur are the ASCII ones. */
module Text {
  import opened Wrappers

  // ---------------------------------------------------------------------
  // str.strip()
  // ---------------------------------------------------------------------

  /** The characters for which `str.isspace()` holds; `str.strip()` removes them. */
  predicate IsSpace(c: char) {
    || ('\t' <= c <= '\r')
    || ('\U{1c}' <= c <= ' ')
    || c == '\U{85}' || c == '\U{a0}' || c == '\U{1680}'
    || ('\U{2000}' <= c <= '\U{200a}')
    || c == '\U{2028}' || c == '\U{2029}' || c == '\U{202f}' || c == '\U{205f}' || c == '\U{3000}'
  }

  predicate AllSpace(s: string) {
    forall i :: 0 <= i < |s| ==> IsSpace(s[i])
  }

  /** Neither starts nor ends with white space. */
  predicate IsStripped(s: string) {
    s == [] || (!IsSpace(s[0]) && !IsSpace(s[|s| - 1]))
  }

  /** Python's `s.strip()`: white space is removed from both ends until
      neither end is white space. */
  function Strip(s: string): (r: string)
    ensures IsStripped(r) && |r| <= |s|
  {
    if s != [] && IsSpace(s[0]) then Strip(s[1..])
    else if s != [] && IsSpace(s[|s| - 1]) then Strip(s[..|s| - 1])
    else s
  }

  lemma AllSpaceConcat(a: string, b: string)
    requires AllSpace(a) && AllSpace(b)
    ensures AllSpace(a + b)
  {
    assert forall i :: 0 <= i < |a + b| ==> (a + b)[i] == if i < |a| then a[i] else b[i - |a|];
  }

  /** Every text is white space, then its stripped form, then white space. */
  lemma {:induction false} StripDecompose(s: string) returns (w1: string, w2: string)
    ensures AllSpace(w1) && AllSpace(w2) && s == w1 + Strip(s) + w2
  {
    if s != [] && IsSpace(s[0]) {
      var v1, v2 := StripDecompose(s[1..]);
      AllSpaceConcat([s[0]], v1);
      w1, w2 := [s[0]] + v1, v2;
      calc {
        s;
        [s[0]] + s[1..];
        [s[0]] + (v1 + Strip(s[1..]) + v2);
        w1 + Strip(s) + w2;
      }
    } else if s != [] && IsSpace(s[|s| - 1]) {
      var v1, v2 := StripDecompose(s[..|s| - 1]);
      AllSpaceConcat(v2, [s[|s| - 1]]);
      w1, w2 := v1, v2 + [s[|s| - 1]];
      calc {
        s;
        s[..|s| - 1] + [s[|s| - 1]];
        (v1 + Strip(s[..|s| - 1]) + v2) + [s[|s| - 1]];
        w1 + Strip(s) + w2;
      }
    } else {
      w1, w2 := [], [];
      assert s == [] + s + [];
    }
  }

  /** Stripping is determined by the text between the white space:
      `(w1 + t + w2).strip() == t` whenever `w1` and `w2` are white space and
      `t` is already stripped. */
  lemma {:induction false} StripPadded(w1: string, t: string, w2: string)
    requires AllSpace(w1) && AllSpace(w2) && IsStripped(t)
    ensures Strip(w1 + t + w2) == t
    decreases |w1| + |w2|
  {
    var s := w1 + t + w2;
    if w1 != [] {
      assert s[0] == w1[0] && s[1..] == w1[1..] + t + w2;
      StripPadded(w1[1..], t, w2);
    } else if t == [] && w2 != [] {
      assert s == w2 && s[1..] == [] + t + w2[1..];
      StripPadded([], t, w2[1..]);
    } else if w2 != [] {
      assert s[0] == t[0] && s[|s| - 1] == w2[|w2| - 1];
      assert s[..|s| - 1] == [] + t + w2[..|w2| - 1];
      StripPadded([], t, w2[..|w2| - 1]);
    } else {
      assert s == t;
    }
  }

  /** `strip()` is idempotent. */
  lemma StripIdempotent(s: string)
    ensures Strip(Strip(s)) == Strip(s)
  {
    var r := Strip(s);
    assert r == [] + r + [];
    StripPadded([], r, []);
  }

  // ---------------------------------------------------------------------
  // str.split(sep)
  // ---------------------------------------------------------------------

  /** `sep.join(pieces)`. */
  function Join(pieces: seq<string>, sep: char): string
    requires |pieces| >= 1
  {
    if |pieces| == 1 then pieces[0] else pieces[0] + [sep] + Join(pieces[1..], sep)
  }

  /** Python's `s.split(sep)` with an explicit one-character separator: the
      pieces between separators, always at least one (`"".split(",") == [""]`). */
  function Split(s: string, sep: char): (pieces: seq<string>)
    ensures |pieces| >= 1
    ensures forall i :: 0 <= i < |pieces| ==> sep !in pieces[i]
  {
    if s == [] then [""]
    else
      var rest := Split(s[1..], sep);
      if s[0] == sep then
        [""] + rest
      else
        [[s[0]] + rest[0]] + rest[1..]
  }

  /** Joining the pieces with the separator gives back the text. */
  lemma {:induction false} JoinSplit(s: string, sep: char)
    ensures Join(Split(s, sep), sep) == s
  {
    if s != [] {
      var rest := Split(s[1..], sep);
      JoinSplit(s[1..], sep);
      if s[0] == sep {
        assert Split(s, sep)[1..] == rest;
        assert s == [sep] + s[1..];
      } else {
        var pieces := [[s[0]] + rest[0]] + rest[1..];
        assert pieces[1..] == rest[1..];
        if |rest| == 1 {
          assert s == [s[0]] + s[1..];
        } else {
          assert Join(rest, sep) == rest[0] + [sep] + Join(rest[1..], sep);
          assert s == [s[0]] + s[1..];
        }
      }
    }
  }

  /** Splitting a text that starts with a separator-free prefix `p` glues `p`
      onto the first piece. */
  lemma {:induction false} SplitPrefix(p: string, t: string, sep: char)
    requires sep !in p
    ensures Split(p + t, sep) == [p + Split(t, sep)[0]] + Split(t, sep)[1..]
  {
    var ts := Split(t, sep);
    if p == [] {
      assert p + t == t;
      assert p + ts[0] == ts[0];
    } else {
      assert (p + t)[1..] == p[1..] + t;
      SplitPrefix(p[1..], t, sep);
      var rest := Split(p[1..] + t, sep);
      assert rest[0] == p[1..] + ts[0];
      assert rest[1..] == ts[1..];
      assert [p[0]] + (p[1..] + ts[0]) == p + ts[0];
    }
  }

  /** Splitting undoes joining separator-free pieces. */
  lemma {:induction false} SplitJoin(pieces: seq<string>, sep: char)
    requires |pieces| >= 1
    requires forall i :: 0 <= i < |pieces| ==> sep !in pieces[i]
    ensures Split(Join(pieces, sep), sep) == pieces
  {
    if |pieces| == 1 {
      SplitPrefix(pieces[0], [], sep);
      assert pieces[0] + [] == pieces[0];
    } else {
      var j := Join(pieces[1..], sep);
      SplitJoin(pieces[1..], sep);
      assert ([sep] + j)[1..] == j;
      assert Split([sep] + j, sep) == [""] + pieces[1..];
      SplitPrefix(pieces[0], [sep] + j, sep);
      assert pieces[0] + [sep] + j == pieces[0] + ([sep] + j);
      assert pieces[0] + "" == pieces[0];
    }
  }

  // ---------------------------------------------------------------------
  // str.lower() and the substring test
  // ---------------------------------------------------------------------

  /** The Latin-1 capitals `str.lower()` changes: A-Z and the accented
      capitals U+00C0..U+00DE, except the multiplication sign U+00D7. */
  predicate IsCapital(c: char) {
    ('A' <= c <= 'Z') || ('\U{c0}' <= c <= '\U{de}' && c != '\U{d7}')
  }

  /** `str.lower()` on one Latin-1 character: a capital moves down by 32. */
  function LowerChar(c: char): char {
    if IsCapital(c) then (c as int + 32) as char else c
  }

  /** `str.lower()` on Latin-1 text: no capital is left, every capital
      becomes the letter 32 code points above it, and every other character
      stays where it is. */
  function Lower(s: string): (r: string)
    ensures |r| == |s|
    ensures forall i :: 0 <= i < |r| ==> !IsCapital(r[i])
    ensures forall i :: 0 <= i < |s| && IsCapital(s[i]) ==> r[i] as int == s[i] as int + 32
    ensures forall i :: 0 <= i < |s| && !IsCapital(s[i]) ==> r[i] == s[i]
  {
    seq(|s|, i requires 0 <= i < |s| => LowerChar(s[i]))
  }

  /** Lowering a concatenation lowers each part. */
  lemma LowerAppend(a: string, b: string)
    ensures Lower(a + b) == Lower(a) + Lower(b)
  {
    assert forall i :: 0 <= i < |a + b| ==> Lower(a + b)[i] == (Lower(a) + Lower(b))[i];
  }

  /** Lowering twice is lowering once. */
  lemma LowerIdempotent(s: string)
    ensures Lower(Lower(s)) == Lower(s)
  {
  }

  /** Python's `sub in s` for strings. */
  predicate Contains(s: string, sub: string)
    decreases |s|
  {
    |sub| <= |s| && (s[..|sub|] == sub || Contains(s[1..], sub))
  }

  /** `sub` occurs in `s` starting at index `k`. */
  predicate OccursAt(s: string, sub: string, k: int) {
    0 <= k <= |s| - |sub| && s[k..k + |sub|] == sub
  }

  /** `sub in s` holds exactly when `sub` occurs at some position of `s`. */
  lemma {:induction false} ContainsAt(s: string, sub: string)
    ensures Contains(s, sub) <==> exists k :: OccursAt(s, sub, k)
    decreases |s|
  {
    if |sub| <= |s| {
      if s[..|sub|] == sub {
        assert OccursAt(s, sub, 0);
      } else {
        ContainsAt(s[1..], sub);
        if Contains(s[1..], sub) {
          var k :| OccursAt(s[1..], sub, k);
          assert s[1..][k..k + |sub|] == s[k + 1..k + 1 + |sub|];
          assert OccursAt(s, sub, k + 1);
        }
        if exists k :: OccursAt(s, sub, k) {
          var k :| OccursAt(s, sub, k);
          assert s[0..|sub|] == s[..|sub|];
          assert k != 0;
          assert s[1..][k - 1..k - 1 + |sub|] == s[k..k + |sub|];
          assert OccursAt(s[1..], sub, k - 1);
        }
      }
    }
  }

  // ---------------------------------------------------------------------
  // Decimal digits, int() and the regular expression (\d+)
  // ---------------------------------------------------------------------

  predicate IsDigit(c: char) {
    '0' <= c <= '9'
  }

  predicate AllDigits(s: string) {
    forall i :: 0 <= i < |s| ==> IsDigit(s[i])
  }

  function DigitChar(d: nat): (c: char)
    requires d < 10
    ensures IsDigit(c)
  {
    ('0' as int + d) as char
  }

  function DigitOf(c: char): nat
    requires IsDigit(c)
  {
    c as int - '0' as int
  }

  function Pow10(n: nat): (r: nat)
    ensures r >= 1
  {
    if n == 0 then 1 else 10 * Pow10(n - 1)
  }

  /** The number a string of decimal digits denotes (leading zeros allowed);
      `k` digits denote a number below `10^k`. */
  function DigitsValue(s: string): (r: nat)
    requires AllDigits(s)
    ensures r < Pow10(|s|)
  {
    if s == [] then 0 else 10 * DigitsValue(s[..|s| - 1]) + DigitOf(s[|s| - 1])
  }

  lemma DigitsValueSnoc(a: string, c: char)
    requires AllDigits(a) && IsDigit(c)
    ensures DigitsValue(a + [c]) == 10 * DigitsValue(a) + DigitOf(c)
  {
    assert (a + [c])[..|a|] == a;
  }

  lemma DigitsValueOne(t: string)
    requires |t| == 1 && AllDigits(t)
    ensures DigitsValue(t) == DigitOf(t[0])
  {
    assert t[..0] == [];
  }

  lemma DigitsValueTwo(t: string)
    requires |t| == 2 && AllDigits(t)
    ensures DigitsValue(t) == 10 * DigitOf(t[0]) + DigitOf(t[1])
  {
    DigitsValueOne(t[..1]);
    assert t == t[..1] + [t[1]];
    DigitsValueSnoc(t[..1], t[1]);
  }

  /** Appending two digits multiplies the value by a hundred. */
  lemma DigitsValueAppendTwo(a: string, b: string)
    requires AllDigits(a) && |b| == 2 && AllDigits(b)
    ensures DigitsValue(a + b) == 100 * DigitsValue(a) + DigitsValue(b)
  {
    DigitsValueTwo(b);
    DigitsValueSnoc(a, b[0]);
    assert a + b == (a + [b[0]]) + [b[1]];
    DigitsValueSnoc(a + [b[0]], b[1]);
  }

  /** The decimal text of `n`, without leading zeros. */
  function NatToDigits(n: nat): (s: string)
    ensures |s| >= 1 && AllDigits(s)
    ensures |s| > 1 ==> s[0] != '0'
  {
    if n < 10 then [DigitChar(n)] else NatToDigits(n / 10) + [DigitChar(n % 10)]
  }

  /** Reading back the decimal text of `n` gives `n`. */
  lemma {:induction false} DigitsRoundTrip(n: nat)
    ensures DigitsValue(NatToDigits(n)) == n
  {
    if n >= 10 {
      DigitsValueSnoc(NatToDigits(n / 10), DigitChar(n % 10));
      DigitsRoundTrip(n / 10);
    }
  }

  /** Text that `int()` accepts after the sign: digits, where single
      underscores may stand between two digits. */
  predicate IsDigitText(s: string) {
    && |s| > 0 && IsDigit(s[0]) && IsDigit(s[|s| - 1])
    && (forall i :: 0 <= i < |s| ==> IsDigit(s[i]) || s[i] == '_')
    && (forall i :: 0 <= i < |s| - 1 ==> s[i] == '_' ==> s[i + 1] != '_')
  }

  function RemoveUnderscores(s: string): (r: string)
    requires forall i :: 0 <= i < |s| ==> IsDigit(s[i]) || s[i] == '_'
    ensures AllDigits(r) && |r| <= |s|
    ensures AllDigits(s) ==> r == s
  {
    if s == [] then []
    else if s[0] == '_' then RemoveUnderscores(s[1..])
    else [s[0]] + RemoveUnderscores(s[1..])
  }

  /** Python's `int(s)` on a stripped string: an optional `+` or `-`, then
      digit text; anything else raises `ValueError`, modelled as `None`. */
  function ParseInt(s: string): (r: Option<int>)
    ensures r.Some? <==> (IsDigitText(s) || (|s| > 0 && (s[0] == '+' || s[0] == '-') && IsDigitText(s[1..])))
    ensures r.Some? && |s| > 0 && s[0] == '-' ==> r.value <= 0
    ensures r.Some? && AllDigits(s) ==> r.value == DigitsValue(s)
  {
    if |s| > 0 && (s[0] == '+' || s[0] == '-') then
      if IsDigitText(s[1..]) then
        var v: int := DigitsValue(RemoveUnderscores(s[1..]));
        Some(if s[0] == '-' then -v else v)
      else None
    else if IsDigitText(s) then Some(DigitsValue(RemoveUnderscores(s)))
    else None
  }

  /** Removing the separators works piece by piece, and a separator on its
      own disappears. */
  lemma {:induction false} RemoveUnderscoresAppend(a: string, b: string)
    requires forall i :: 0 <= i < |a| ==> IsDigit(a[i]) || a[i] == '_'
    requires forall i :: 0 <= i < |b| ==> IsDigit(b[i]) || b[i] == '_'
    ensures RemoveUnderscores(a + b) == RemoveUnderscores(a) + RemoveUnderscores(b)
    ensures RemoveUnderscores("_") == ""
  {
    if a == [] {
      assert a + b == b;
    } else {
      assert (a + b)[0] == a[0] && (a + b)[1..] == a[1..] + b;
      RemoveUnderscoresAppend(a[1..], b);
    }
  }

  /** An underscore between two digit texts does not change the value
      `int()` gives: `int("1_000") == int("1000")`. */
  lemma UnderscoreIgnored(a: string, b: string)
    requires IsDigitText(a) && IsDigitText(b)
    ensures ParseInt(a + "_" + b) == ParseInt(a + b)
  {
    JoinedWithUnderscore(a, b);
    JoinedDirectly(a, b);
    assert (a + "_" + b)[0] == a[0] && (a + b)[0] == a[0];
    SeparatorRemoved(a, b);
  }

  lemma SeparatorRemoved(a: string, b: string)
    requires IsDigitText(a) && IsDigitText(b)
    ensures RemoveUnderscores(a + "_" + b) == RemoveUnderscores(a + b)
  {
    var a' := a + "_";
    RemoveUnderscoresAppend(a, "_");
    assert RemoveUnderscores(a') == RemoveUnderscores(a);
    assert forall i :: 0 <= i < |a'| ==> IsDigit(a'[i]) || a'[i] == '_' by {
      assert forall i :: 0 <= i < |a| ==> a'[i] == a[i];
    }
    RemoveUnderscoresAppend(a', b);
    RemoveUnderscoresAppend(a, b);
  }

  lemma JoinedWithUnderscore(a: string, b: string)
    requires IsDigitText(a) && IsDigitText(b)
    ensures IsDigitText(a + "_" + b)
  {
    var s := a + "_" + b;
    assert forall i :: 0 <= i < |a| ==> s[i] == a[i];
    assert forall i :: 0 <= i < |b| ==> s[|a| + 1 + i] == b[i];
    forall i | 0 <= i < |s| - 1 && s[i] == '_'
      ensures s[i + 1] != '_'
    {
      if i < |a| {
      } else if i == |a| {
        assert s[i + 1] == b[0];
      } else {
        assert s[i] == b[i - |a| - 1] && s[i + 1] == b[i - |a|];
      }
    }
  }

  lemma JoinedDirectly(a: string, b: string)
    requires IsDigitText(a) && IsDigitText(b)
    ensures IsDigitText(a + b)
  {
    var s := a + b;
    assert forall i :: 0 <= i < |a| ==> s[i] == a[i];
    assert forall i :: 0 <= i < |b| ==> s[|a| + i] == b[i];
    forall i | 0 <= i < |s| - 1 && s[i] == '_'
      ensures s[i + 1] != '_'
    {
      if i < |a| {
      } else {
        assert s[i] == b[i - |a|] && s[i + 1] == b[i - |a| + 1];
      }
    }
  }

  /** A leading `+` changes nothing, and is allowed only before digit text. */
  lemma ParsePlus(t: string)
    ensures ParseInt("+" + t) == (if IsDigitText(t) then ParseInt(t) else None)
  {
    assert ("+" + t)[0] == '+' && ("+" + t)[1..] == t;
  }

  /** A leading `-` negates the value of the digit text after it. */
  lemma ParseMinus(t: string)
    ensures ParseInt("-" + t) == (if IsDigitText(t) then Some(-ParseInt(t).value) else None)
  {
    assert ("-" + t)[0] == '-' && ("-" + t)[1..] == t;
  }

  /** The decimal text Python's `str(n)` gives for an integer. */
  function IntToText(n: int): string {
    if n < 0 then "-" + NatToDigits(-n) else NatToDigits(n)
  }

  /** `int(str(n)) == n`. */
  lemma IntRoundTrip(n: int)
    ensures ParseInt(IntToText(n)) == Some(n)
  {
    var d := NatToDigits(if n < 0 then -n else n);
    DigitsRoundTrip(if n < 0 then -n else n);
    assert RemoveUnderscores(d) == d;
    if n < 0 {
      assert IntToText(n)[1..] == d;
    }
  }

  /** The index of the first digit of `s`, or `|s|` when there is none. */
  function FirstDigitIndex(s: string): (k: nat)
    ensures k <= |s|
    ensures forall j :: 0 <= j < k ==> !IsDigit(s[j])
    ensures k < |s| ==> IsDigit(s[k])
  {
    if s == [] || IsDigit(s[0]) then 0 else 1 + FirstDigitIndex(s[1..])
  }

  /** The length of the longest all-digit prefix of `s`. */
  function DigitPrefixLength(s: string): (n: nat)
    ensures n <= |s| && AllDigits(s[..n])
    ensures n < |s| ==> !IsDigit(s[n])
  {
    if s != [] && IsDigit(s[0]) then 1 + DigitPrefixLength(s[1..]) else 0
  }

  /** The text of the first match of `re.search(r'(\d+)', s)`: the first
      maximal run of digits, or `None` when `s` holds no digit. */
  function FirstDigitRun(s: string): (r: Option<string>)
    ensures r.None? <==> forall j :: 0 <= j < |s| ==> !IsDigit(s[j])
    ensures r.Some? ==> |r.value| >= 1 && AllDigits(r.value)
  {
    var k := FirstDigitIndex(s);
    if k == |s| then None
    else
      var t := s[k..];
      Some(t[..DigitPrefixLength(t)])
  }

  /** The run found is the one that follows a digit-free prefix and ends at a
      non-digit or at the end of the text. */
  lemma FirstDigitRunUnique(pre: string, run: string, post: string)
    requires forall j :: 0 <= j < |pre| ==> !IsDigit(pre[j])
    requires |run| >= 1 && AllDigits(run)
    requires post == [] || !IsDigit(post[0])
    ensures FirstDigitRun(pre + run + post) == Some(run)
  {
    var s := pre + run + post;
    assert forall j :: 0 <= j < |pre| ==> s[j] == pre[j];
    assert s[|pre|] == run[0];
    assert FirstDigitIndex(s) == |pre|;
    var t := s[|pre|..];
    assert t == run + post;
    assert forall j :: 0 <= j < |run| ==> t[j] == run[j];
    assert |run| < |t| ==> t[|run|] == post[0];
    assert DigitPrefixLength(t) == |run|;
  }

  /** `int(re.search(r'(\d+)', s).group(1))`, or `None` without a match. */
  function FirstNumber(s: string): (r: Option<nat>)
    ensures r.Some? <==> FirstDigitRun(s).Some?
  {
    match FirstDigitRun(s)
    case None => None
    case Some(run) => Some(DigitsValue(run))
  }
}
