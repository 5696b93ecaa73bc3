/** Segmenter, classifier and filter (app/filter.py): raw text becomes one
    labelled segment per non-blank line; REQ, DEF and CON segments are kept
    for extraction. */
module Filter {
  import opened Text

  datatype Label = REQ | DEF | CON | INFO

  datatype Segment = Segment(segmentId: string, kind: Label, text: string, page: int, section: string)

  const RequirementIdTokens: seq<string> := ["req", "fr", "nfr", "us"]

  /** `_REQ_ID_PATTERN.search(t)`: an id such as `REQ-12`, `fr: 3` or `US7`
      at the start of the text (after whitespace), in any case. */
  predicate HasRequirementId(t: string)
  {
    var l := Lower(t);
    RequirementIdEnd(l, Span(l, 0, Spaces), RequirementIdTokens).Some?
  }

  /** `^w\b` on the lowered, stripped text. */
  predicate StartsWithWord(l: string, w: string) { At(l, 0, w) && Boundary(l, |w|) }

  /** `_matches_any(t, _DEF_PATTERNS)`. */
  predicate DefinitionMarker(t: string)
  {
    var l := Lower(Strip(t));
    StartsWithWord(l, "def") || StartsWithWord(l, "definition") || SearchWord(l, "is defined as")
    || SearchWord(l, "means") || StartsWithWord(l, "glossary")
  }

  /** `\bwithin\b.*\bseconds\b`, where `.` is any character but a newline. */
  predicate WithinSeconds(l: string)
  {
    exists i, j | 0 <= i <= j <= |l| ::
      WordOccursAt(l, "within", i) && i + 6 <= j && WordOccursAt(l, "seconds", j)
      && '\n' !in l[i + 6..j]
  }

  /** `_matches_any(t, _CON_PATTERNS)`. */
  predicate ConstraintMarker(t: string)
  {
    var l := Lower(Strip(t));
    SearchWord(l, "unique") || WithinSeconds(l) || SearchWord(l, "not exceed")
    || SearchWord(l, "maximum") || SearchWord(l, "minimum") || SearchWord(l, "validation")
    || SearchWord(l, "constraint") || SearchWord(l, "encrypted") || SearchWord(l, "gdpr")
  }

  /** `_matches_any(t, _REQ_PATTERNS)`. */
  predicate ModalMarker(t: string)
  {
    var l := Lower(Strip(t));
    SearchWord(l, "shall") || SearchWord(l, "must") || SearchWord(l, "should")
    || SearchWord(l, "is required to") || SearchWord(l, "requires") || SearchWord(l, "has to")
  }

  /** `label_sentence`: the first rule that fires decides the label. */
  function LabelSentence(text: string): Label
  {
    var t := Strip(text);
    if t == [] then INFO
    else if HasRequirementId(t) then REQ
    else if DefinitionMarker(t) then DEF
    else if ConstraintMarker(t) then CON
    else if ModalMarker(t) then REQ
    else INFO
  }

  /** Blank text is INFO and, because an id needs a digit, never REQ. */
  lemma BlankIsInfo(text: string)
    ensures IsBlank(text) <==> Strip(text) == []
    ensures IsBlank(text) ==> LabelSentence(text) == INFO
  {
    StripShape(text);
  }

  /** The rule order: id prefix, then definition, then constraint, then modal
      verb; a line with no marker is INFO. */
  lemma LabelPrecedence(text: string)
    ensures var t := Strip(text);
      && (t != [] && HasRequirementId(t) ==> LabelSentence(text) == REQ)
      && (t != [] && !HasRequirementId(t) && DefinitionMarker(t) ==> LabelSentence(text) == DEF)
      && (t != [] && !HasRequirementId(t) && !DefinitionMarker(t) && ConstraintMarker(t)
          ==> LabelSentence(text) == CON)
      && (LabelSentence(text) == INFO <==>
          t == [] || (!HasRequirementId(t) && !DefinitionMarker(t) && !ConstraintMarker(t) && !ModalMarker(t)))
  {
  }

  /** A line that opens with "REQ-" and a number is REQ whatever follows,
      constraint or definition markers included: the id rule is tried first. */
  lemma RequirementIdPrefixIsReq(n: nat, rest: string)
    ensures LabelSentence("REQ-" + Decimal(n) + rest) == REQ
  {
    var d := Decimal(n);
    var text := "REQ-" + d + rest;
    var e := 4 + |d|;
    assert text[e - 1] == d[|d| - 1];
    assert !IsSpace(text[0]);
    var b := TrailStart(text, |text|);
    assert e <= b;
    var t := Strip(text);
    assert t == text[0..b];
    var l := Lower(t);
    assert l[0] == 'r' && l[1] == 'e' && l[2] == 'q' && l[3] == '-';
    assert l[..3] == "req";
    assert forall m | 4 <= m < e :: l[m] == d[m - 4];
    assert Span(l, 0, Spaces) == 0;
    assert At(l, 0, "req");
    assert Span(l, 3, Spaces) == 3;
    assert Span(l, 4, Spaces) == 4;
    assert Span(l, 4, Digits) >= e;
    assert HasRequirementId(t);
  }

  /** A line that opens with the word "Glossary" is DEF: its first letter
      begins no requirement-id token. */
  lemma GlossaryPrefixIsDef(rest: string)
    requires rest == [] || !IsWordChar(rest[0])
    ensures LabelSentence("Glossary" + rest) == DEF
  {
    var t := Strip("Glossary" + rest);
    GlossaryStripped(rest);
    var l := Lower(t);
    assert Span(l, 0, Spaces) == 0;
    assert !At(l, 0, "req") && !At(l, 0, "fr") && !At(l, 0, "nfr") && !At(l, 0, "us");
    assert !HasRequirementId(t);
    assert StartsWithWord(l, "glossary");
  }

  /** The stripped line still opens with the word, lowered "glossary". */
  lemma GlossaryStripped(rest: string)
    requires rest == [] || !IsWordChar(rest[0])
    ensures var t := Strip("Glossary" + rest);
      && t != [] && Strip(t) == t && |t| >= 8
      && Lower(t)[..8] == "glossary" && (|t| == 8 || !IsWordChar(Lower(t)[8]))
  {
    var text := "Glossary" + rest;
    assert !IsSpace(text[0]) && !IsSpace(text[7]);
    var b := TrailStart(text, |text|);
    assert 8 <= b;
    var t := Strip(text);
    assert t == text[0..b];
    var l := Lower(t);
    assert l[0] == 'g' && l[1] == 'l' && l[2] == 'o' && l[3] == 's' && l[4] == 's' && l[5] == 'a' && l[6] == 'r' && l[7] == 'y';
    assert l[..8] == "glossary";
    StripIdempotent(text);
  }

  /** The lines of the text as `str.splitlines` cuts them, except that an
      empty piece is produced after a final break and between the two
      characters of "\r\n"; blank pieces are dropped below, so the
      candidates are the same. */
  function SplitLines(s: string): (lines: seq<string>)
    ensures forall k | 0 <= k < |lines| :: NoLineBreak(lines[k])
  {
    Pieces(s, 0, 0)
  }

  function Pieces(s: string, start: nat, i: nat): (lines: seq<string>)
    requires start <= i <= |s|
    requires forall k | start <= k < i :: !IsLineBreak(s[k])
    ensures forall k | 0 <= k < |lines| :: NoLineBreak(lines[k])
    decreases |s| - i
  {
    if i == |s| then [s[start..]]
    else if IsLineBreak(s[i]) then [s[start..i]] + Pieces(s, i + 1, i + 1)
    else Pieces(s, start, i + 1)
  }

  /** The line-break characters of `s`, in order. */
  function Breaks(s: string): (r: string)
    ensures |r| <= |s| && forall k | 0 <= k < |r| :: IsLineBreak(r[k])
  {
    if s == [] then [] else (if IsLineBreak(s[0]) then [s[0]] else []) + Breaks(s[1..])
  }

  /** The pieces joined back together, with the separators between them. */
  function Interleave(pieces: seq<string>, seps: string): string
    requires |pieces| == |seps| + 1
  {
    if seps == [] then pieces[0] else pieces[0] + [seps[0]] + Interleave(pieces[1..], seps[1..])
  }

  /** The split loses nothing: there is one piece more than there are line
      breaks, and putting the breaks back between the pieces, in order,
      gives the text again. */
  lemma SplitLinesRoundTrip(s: string)
    ensures |SplitLines(s)| == |Breaks(s)| + 1
    ensures Interleave(SplitLines(s), Breaks(s)) == s
  {
    PiecesRoundTrip(s, 0, 0);
    assert s[0..] == s;
  }

  lemma {:induction false} PiecesRoundTrip(s: string, start: nat, i: nat)
    requires start <= i <= |s|
    requires forall k | start <= k < i :: !IsLineBreak(s[k])
    ensures |Pieces(s, start, i)| == |Breaks(s[i..])| + 1
    ensures Interleave(Pieces(s, start, i), Breaks(s[i..])) == s[start..]
    decreases |s| - i
  {
    if i == |s| {
      assert s[i..] == [];
    } else {
      assert s[i..][0] == s[i] && s[i..][1..] == s[i + 1..];
      if IsLineBreak(s[i]) {
        PiecesRoundTrip(s, i + 1, i + 1);
        var rest := Pieces(s, i + 1, i + 1);
        var ps := [s[start..i]] + rest;
        assert Pieces(s, start, i) == ps;
        assert Breaks(s[i..]) == [s[i]] + Breaks(s[i + 1..]);
        assert ps[1..] == rest;
        assert s[start..] == s[start..i] + [s[i]] + s[i + 1..];
      } else {
        PiecesRoundTrip(s, start, i + 1);
        assert Breaks(s[i..]) == Breaks(s[i + 1..]);
      }
    }
  }

  /** The stripped non-blank lines, in order. */
  function NonBlankStripped(lines: seq<string>): seq<string>
  {
    if lines == [] then []
    else (if Strip(lines[0]) != [] then [Strip(lines[0])] else []) + NonBlankStripped(lines[1..])
  }

  function CountNonBlank(lines: seq<string>): nat
  {
    if lines == [] then 0 else (if IsBlank(lines[0]) then 0 else 1) + CountNonBlank(lines[1..])
  }

  /** A stripped line: non-empty, without surrounding white space, without
      line breaks. */
  predicate StrippedLine(c: string)
  {
    c != [] && !IsSpace(c[0]) && !IsSpace(c[|c| - 1]) && NoLineBreak(c)
  }

  /** Stripping a line without breaks gives nothing exactly when it is blank,
      and a stripped line otherwise. */
  lemma StrippedLineOf(line: string)
    requires NoLineBreak(line)
    ensures Strip(line) != [] <==> !IsBlank(line)
    ensures Strip(line) != [] ==> StrippedLine(Strip(line))
  {
    StripShape(line);
    StripNoLineBreak(line);
  }

  /** Every candidate is a stripped line; there is one per non-blank line. */
  lemma {:induction false} NonBlankStrippedShape(lines: seq<string>)
    requires forall k | 0 <= k < |lines| :: NoLineBreak(lines[k])
    ensures var c := NonBlankStripped(lines);
      && |c| == CountNonBlank(lines)
      && forall k | 0 <= k < |c| :: StrippedLine(c[k])
  {
    if lines != [] {
      StrippedLineOf(lines[0]);
      NonBlankStrippedShape(lines[1..]);
      var head := if Strip(lines[0]) != [] then [Strip(lines[0])] else [];
      var rest := NonBlankStripped(lines[1..]);
      assert NonBlankStripped(lines) == head + rest;
      assert forall k | 0 <= k < |head| :: StrippedLine(head[k]);
    }
  }

  /** `split_into_candidates`: one candidate per non-blank line. */
  function SplitIntoCandidates(rawText: string): (candidates: seq<string>)
    ensures |candidates| == CountNonBlank(SplitLines(rawText))
  {
    NonBlankStrippedShape(SplitLines(rawText));
    NonBlankStripped(SplitLines(rawText))
  }

  /** Every candidate is non-empty, stripped and free of line breaks. */
  lemma CandidateShape(rawText: string)
    ensures var c := SplitIntoCandidates(rawText);
      forall k | 0 <= k < |c| ::
        c[k] != [] && !IsSpace(c[k][0]) && !IsSpace(c[k][|c[k]| - 1]) && NoLineBreak(c[k])
  {
    NonBlankStrippedShape(SplitLines(rawText));
  }

  /** The id of the segment at 1-based position `n`. */
  function SegmentId(n: nat): string { "S" + Decimal(n) }

  /** Ids are dense and distinct: the number after "S" is the position. */
  lemma SegmentIdPosition(m: nat, n: nat)
    ensures ParseDecimal(SegmentId(n)[1..]) == n
    ensures SegmentId(m) == SegmentId(n) ==> m == n
  {
    assert SegmentId(n)[1..] == Decimal(n);
    DecimalRoundTrip(n);
    if SegmentId(m) == SegmentId(n) {
      assert SegmentId(m)[1..] == Decimal(m);
      DecimalInjective(m, n);
    }
  }

  /** The segment built for the candidate at 0-based position `i`. */
  function MakeSegment(i: nat, text: string): Segment
  {
    Segment(SegmentId(i + 1), LabelSentence(text), text, 0, "")
  }

  /** `segment_text`: one segment per candidate, in order, numbered from 1. */
  method SegmentText(rawText: string, docId: string) returns (segments: seq<Segment>)
    ensures var c := SplitIntoCandidates(rawText);
      && |segments| == |c|
      && forall i | 0 <= i < |c| :: segments[i] == MakeSegment(i, c[i])
  {
    var candidates := SplitIntoCandidates(rawText);
    segments := LabelCandidates(candidates);
  }

  /** The loop of `segment_text`: label each candidate and number it. */
  method LabelCandidates(candidates: seq<string>) returns (segments: seq<Segment>)
    ensures |segments| == |candidates|
    ensures forall i | 0 <= i < |candidates| :: segments[i] == MakeSegment(i, candidates[i])
  {
    segments := [];
    for i := 0 to |candidates|
      invariant |segments| == i
      invariant forall k | 0 <= k < i :: segments[k] == MakeSegment(k, candidates[k])
    {
      var kind := LabelSentence(candidates[i]);
      segments := segments + [Segment(SegmentId(i + 1), kind, candidates[i], 0, "")];
    }
  }

  /** Segment ids of a `segment_text` result are pairwise distinct, and no
      segment text contains a line break. */
  lemma SegmentedTextWellFormed(rawText: string, segments: seq<Segment>)
    requires var c := SplitIntoCandidates(rawText);
      && |segments| == |c|
      && forall i | 0 <= i < |c| :: segments[i] == MakeSegment(i, c[i])
    ensures forall i, j | 0 <= i < j < |segments| :: segments[i].segmentId != segments[j].segmentId
    ensures forall i | 0 <= i < |segments| :: NoLineBreak(segments[i].text) && segments[i].text != []
  {
    CandidateShape(rawText);
    forall i, j | 0 <= i < j < |segments|
      ensures segments[i].segmentId != segments[j].segmentId
    {
      SegmentIdPosition(i + 1, j + 1);
    }
  }

  predicate Relevant(s: Segment) { s.kind == REQ || s.kind == DEF || s.kind == CON }

  /** `filter_relevant_segments`. */
  function FilterRelevant(segments: seq<Segment>): (kept: seq<Segment>)
    ensures |kept| <= |segments|
    ensures forall s :: s in kept <==> s in segments && s.kind != INFO
  {
    if segments == [] then []
    else (if Relevant(segments[0]) then [segments[0]] else []) + FilterRelevant(segments[1..])
  }

  /** `a` is `b` with some elements left out, order kept. */
  ghost predicate SubsequenceOf<T>(a: seq<T>, b: seq<T>)
    decreases |b|
  {
    if a == [] then true
    else if b == [] then false
    else (a[0] == b[0] && SubsequenceOf(a[1..], b[1..])) || SubsequenceOf(a, b[1..])
  }

  lemma {:induction false} FilterRelevantIsSubsequence(segments: seq<Segment>)
    ensures SubsequenceOf(FilterRelevant(segments), segments)
  {
    if segments != [] {
      FilterRelevantIsSubsequence(segments[1..]);
      if !Relevant(segments[0]) {
        assert FilterRelevant(segments) == FilterRelevant(segments[1..]);
      } else {
        var k := FilterRelevant(segments);
        assert k[0] == segments[0] && k[1..] == FilterRelevant(segments[1..]);
      }
    }
  }

  /** The filter keeps every copy of a non-INFO segment and no copy of an
      INFO one: each segment occurs in the result as often as in the input,
      or not at all. */
  lemma {:induction false} FilterRelevantCounts(segments: seq<Segment>)
    ensures forall s :: multiset(FilterRelevant(segments))[s] ==
                        (if s.kind != INFO then multiset(segments)[s] else 0)
  {
    if segments != [] {
      FilterRelevantCounts(segments[1..]);
      assert segments == [segments[0]] + segments[1..];
      assert multiset(segments) == multiset([segments[0]]) + multiset(segments[1..]);
      var head := if Relevant(segments[0]) then [segments[0]] else [];
      assert FilterRelevant(segments) == head + FilterRelevant(segments[1..]);
      assert multiset(FilterRelevant(segments)) == multiset(head) + multiset(FilterRelevant(segments[1..]));
    }
  }

  datatype Quality = Quality(numSegments: nat, keptSegments: nat, filterRatio: real)

  /** `quality_metrics`, with the ratio kept exact instead of rounded. */
  function QualityMetrics(all: seq<Segment>, kept: seq<Segment>): (q: Quality)
    ensures q.numSegments == |all| && q.keptSegments == |kept|
    ensures |all| == 0 ==> q.filterRatio == 0.0
    ensures |all| > 0 ==> q.filterRatio * (|all| as real) == |kept| as real
    ensures |kept| <= |all| ==> 0.0 <= q.filterRatio <= 1.0
  {
    var total := |all|;
    var keptN := |kept|;
    var ratio := if total > 0 then (keptN as real) / (total as real) else 0.0;
    Quality(total, keptN, ratio)
  }
}
