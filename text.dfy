/** An ASCII model of the pieces of Python's `str` and `re` that the pipeline
    relies on: character classes (`\w`, `\s`, `\d`), case mapping, `strip`,
    word boundaries (`\b`), literal search, and the decimal rendering used for
    segment ids. Characters outside ASCII are neither word characters nor
    whitespace here, and case mapping leaves them alone. */
module Text {

  datatype Option<T> = None | Some(value: T)

  predicate IsUpper(c: char) { 'A' <= c <= 'Z' }
  predicate IsLower(c: char) { 'a' <= c <= 'z' }
  predicate IsLetter(c: char) { IsUpper(c) || IsLower(c) }
  predicate IsDigit(c: char) { '0' <= c <= '9' }

  /** `\w`: letters, digits and underscore. */
  predicate IsWordChar(c: char) { IsLetter(c) || IsDigit(c) || c == '_' }

  /** `\s` and `str.isspace`: tab, line feed, vertical tab, form feed,
      carriage return, the four separators 0x1c-0x1f, and space. */
  predicate IsSpace(c: char) { 9 <= c as int <= 13 || 28 <= c as int <= 32 }

  /** The characters at which `str.splitlines` ends a line. */
  predicate IsLineBreak(c: char) { 10 <= c as int <= 13 || 28 <= c as int <= 30 }

  function LowerChar(c: char): char { if IsUpper(c) then (c as int + 32) as char else c }
  function UpperChar(c: char): char { if IsLower(c) then (c as int - 32) as char else c }

  /** `str.lower`. */
  function Lower(s: string): string { seq(|s|, i requires 0 <= i < |s| => LowerChar(s[i])) }

  /** The character classes the patterns scan runs of. */
  datatype CharClass = Spaces | Lowers | Letters | Digits | WordChars | WordOrSpace | ListChars

  predicate In(c: char, k: CharClass)
  {
    match k
    case Spaces => IsSpace(c)
    case Lowers => IsLower(c)
    case Letters => IsLetter(c)
    case Digits => IsDigit(c)
    case WordChars => IsWordChar(c)
    case WordOrSpace => IsWordChar(c) || IsSpace(c)
    case ListChars => IsWordChar(c) || IsSpace(c) || c == ','
  }

  /** End of the longest run of class `k` that starts at `i` (a greedy `k*`). */
  function Span(s: string, i: nat, k: CharClass): (j: nat)
    requires i <= |s|
    ensures i <= j <= |s|
    ensures forall m | i <= m < j :: In(s[m], k)
    ensures j == |s| || !In(s[j], k)
    decreases |s| - i
  {
    if i < |s| && In(s[i], k) then Span(s, i + 1, k) else i
  }

  /** Start of the longest run of whitespace that ends at `j`. */
  function TrailStart(s: string, j: nat): (e: nat)
    requires j <= |s|
    ensures e <= j
    ensures forall m | e <= m < j :: IsSpace(s[m])
    ensures e == 0 || !IsSpace(s[e - 1])
    decreases j
  {
    if j > 0 && IsSpace(s[j - 1]) then TrailStart(s, j - 1) else j
  }

  predicate IsBlank(s: string) { forall i | 0 <= i < |s| :: IsSpace(s[i]) }

  predicate NoLineBreak(s: string) { forall i | 0 <= i < |s| :: !IsLineBreak(s[i]) }

  /** `str.strip()`. */
  function Strip(s: string): string
  {
    var a := Span(s, 0, Spaces);
    var b := TrailStart(s, |s|);
    if a < b then s[a..b] else []
  }

  /** What `strip` promises: a slice of the input that is empty exactly when
      the input is blank, and otherwise neither starts nor ends with
      whitespace and has only whitespace cut off either side. */
  lemma StripShape(s: string)
    ensures Strip(s) == [] <==> IsBlank(s)
    ensures Strip(s) != [] ==> !IsSpace(Strip(s)[0]) && !IsSpace(Strip(s)[|Strip(s)| - 1])
    ensures exists a, b | 0 <= a <= b <= |s| ::
              Strip(s) == s[a..b] && IsBlank(s[..a]) && IsBlank(s[b..])
  {
    var a := Span(s, 0, Spaces);
    var b := TrailStart(s, |s|);
    if a < b {
      assert Strip(s) == s[a..b];
      assert !IsSpace(s[a]);
      BlankSlices(s, a, b);
    } else {
      assert a == |s|;
      assert Strip(s) == s[a..a];
      BlankSlices(s, a, a);
    }
  }

  /** The whitespace `strip` cuts off on either side. */
  lemma BlankSlices(s: string, a: nat, b: nat)
    requires a <= b <= |s|
    requires forall m | 0 <= m < a :: IsSpace(s[m])
    requires forall m | b <= m < |s| :: IsSpace(s[m])
    ensures IsBlank(s[..a]) && IsBlank(s[b..])
  {
    assert forall m | 0 <= m < a :: s[..a][m] == s[m];
    assert forall m | 0 <= m < |s| - b :: s[b..][m] == s[b + m];
  }

  /** Stripping twice is stripping once. */
  lemma StripIdempotent(s: string)
    ensures Strip(Strip(s)) == Strip(s)
  {
    StripShape(s);
    var t := Strip(s);
    if t != [] {
      assert Span(t, 0, Spaces) == 0;
      assert TrailStart(t, |t|) == |t|;
      assert t[0..|t|] == t;
    }
  }

  lemma StripNoLineBreak(s: string)
    requires NoLineBreak(s)
    ensures NoLineBreak(Strip(s))
  {
    StripShape(s);
  }

  /** `w` occurs in `s` at index `i`. */
  predicate At(s: string, i: nat, w: string) { i + |w| <= |s| && s[i..i + |w|] == w }

  predicate WordAt(s: string, i: int) { 0 <= i < |s| && IsWordChar(s[i]) }

  /** `\b` at index `i`. */
  predicate Boundary(s: string, i: int) { WordAt(s, i - 1) != WordAt(s, i) }

  /** `\b w \b` matches at index `i`. */
  predicate WordOccursAt(s: string, w: string, i: nat) { At(s, i, w) && Boundary(s, i) && Boundary(s, i + |w|) }

  /** `re.search(r"\b" + w + r"\b", s)` succeeds. */
  predicate SearchWord(s: string, w: string) { exists i | 0 <= i <= |s| :: WordOccursAt(s, w, i) }

  predicate StartsWith(s: string, w: string) { At(s, 0, w) }

  predicate EndsWith(s: string, w: string) { |w| <= |s| && s[|s| - |w|..] == w }

  /** Python's `w in s` on strings. */
  predicate Contains(s: string, w: string) { exists i | 0 <= i <= |s| :: At(s, i, w) }

  /** Some word of `ws` occurs in `s`. */
  predicate ContainsAny(s: string, ws: seq<string>)
    decreases |ws|
  {
    ws != [] && (Contains(s, ws[0]) || ContainsAny(s, ws[1..]))
  }

  lemma {:induction false} ContainsAnyExists(s: string, ws: seq<string>)
    ensures ContainsAny(s, ws) <==> exists w | w in ws :: Contains(s, w)
    decreases |ws|
  {
    if ws != [] {
      ContainsAnyExists(s, ws[1..]);
      assert forall w | w in ws :: w == ws[0] || w in ws[1..];
    }
  }

  /** `w` is one of `words`: Python's `w in words` on a list or set of
      strings, written as a search so that a long table is looked at one
      entry at a time. */
  predicate OneOf(w: string, words: seq<string>)
    decreases |words|
  {
    words != [] && (w == words[0] || OneOf(w, words[1..]))
  }

  lemma {:induction false} OneOfIn(w: string, words: seq<string>)
    ensures OneOf(w, words) <==> w in words
    decreases |words|
  {
    if words != [] {
      OneOfIn(w, words[1..]);
      assert w in words <==> w == words[0] || w in words[1..];
    }
  }

  /** `s.endswith(w)` for some `w` of `ws`. */
  predicate EndsWithAny(s: string, ws: seq<string>)
    decreases |ws|
  {
    ws != [] && (EndsWith(s, ws[0]) || EndsWithAny(s, ws[1..]))
  }

  lemma {:induction false} EndsWithAnyExists(s: string, ws: seq<string>)
    ensures EndsWithAny(s, ws) <==> exists w | w in ws :: EndsWith(s, w)
    decreases |ws|
  {
    if ws != [] {
      EndsWithAnyExists(s, ws[1..]);
      assert forall w | w in ws :: w == ws[0] || w in ws[1..];
    }
  }

  /** `re.sub(r'^\s*(?:w1|w2|...)\s+', '', p)` with the search start `a`
      past the leading blanks: the first word of `words` at `a`, compared
      case-insensitively, that whitespace follows is removed together with
      that whitespace. */
  function DropLeadingWord(p: string, a: nat, words: seq<string>): (r: string)
    requires a <= |p|
    ensures |r| <= |p|
    decreases |words|
  {
    if words == [] then p
    else
      var w := words[0];
      if At(Lower(p), a, w) && Span(p, a + |w|, Spaces) > a + |w| then p[Span(p, a + |w|, Spaces)..]
      else DropLeadingWord(p, a, words[1..])
  }

  /** `(tok1|tok2|...)\s*[-:]?\s*\d+` tried at index `i`, alternatives in
      order: the end of the (greedy) digit run of the first alternative that
      matches. */
  function RequirementIdEnd(l: string, i: nat, tokens: seq<string>): Option<nat>
    requires i <= |l|
    decreases |tokens|
  {
    if tokens == [] then None
    else if At(l, i, tokens[0]) then
      match SeparatorDigitsEnd(l, i + |tokens[0]|)
      case Some(e) => Some(e)
      case None => RequirementIdEnd(l, i, tokens[1..])
    else RequirementIdEnd(l, i, tokens[1..])
  }

  /** `\s*[-:]?\s*\d+` at index `p`: the end of the digit run. */
  function SeparatorDigitsEnd(l: string, p: nat): (r: Option<nat>)
    requires p <= |l|
    ensures r.Some? ==> p < r.value <= |l|
  {
    var q := Span(l, p, Spaces);
    var q2 := if q < |l| && (l[q] == '-' || l[q] == ':') then Span(l, q + 1, Spaces) else q;
    var d := Span(l, q2, Digits);
    if d > q2 then Some(d) else None
  }

  function DigitChar(d: nat): char
    requires d < 10
  {
    ('0' as int + d) as char
  }

  /** `str(n)` for a natural number. */
  function Decimal(n: nat): (r: string)
    ensures |r| >= 1 && forall i | 0 <= i < |r| :: IsDigit(r[i])
  {
    if n < 10 then [DigitChar(n)] else Decimal(n / 10) + [DigitChar(n % 10)]
  }

  /** `int(s)` on a string of decimal digits. */
  function ParseDecimal(s: string): nat
  {
    if s == [] then 0
    else ParseDecimal(s[..|s| - 1]) * 10 + ((s[|s| - 1] as int - '0' as int) % 10)
  }

  lemma {:induction false} DecimalRoundTrip(n: nat)
    ensures ParseDecimal(Decimal(n)) == n
  {
    if n < 10 {
      assert Decimal(n)[..0] == [];
    } else {
      var s := Decimal(n);
      assert s[..|s| - 1] == Decimal(n / 10);
      DecimalRoundTrip(n / 10);
    }
  }

  lemma DecimalInjective(m: nat, n: nat)
    requires Decimal(m) == Decimal(n)
    ensures m == n
  {
    DecimalRoundTrip(m);
    DecimalRoundTrip(n);
  }
}
