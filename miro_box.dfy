/** The layout arithmetic and the HTML content of a UML class box on a
    Miro board (`estimate_height`, `estimate_width`, and the sizing and
    content loop of `create_class_box`). */
module MiroBox {
  import opened Text

  const BasePadding: int := 50
  const LineHeight: int := 20
  const CharWidth: int := 10
  const Padding: int := 40
  const MaxWidth: int := 600
  const DefaultMinWidth: int := 220

  /** `estimate_height`: a fixed padding plus one line height per line; the
      line count can be read back from the height. */
  function EstimateHeight(numLines: int): (h: int)
    ensures (h - BasePadding) / LineHeight == numLines && (h - BasePadding) % LineHeight == 0
    ensures numLines >= 0 ==> h >= BasePadding
  {
    BasePadding + numLines * LineHeight
  }

  /** One more line makes the box exactly one line height taller. */
  lemma {:induction false} EstimateHeightStep(m: int, n: int)
    requires m <= n
    ensures EstimateHeight(n) - EstimateHeight(m) == (n - m) * LineHeight
  {
    assert EstimateHeight(n) - EstimateHeight(m) == n * LineHeight - m * LineHeight;
  }

  /** `max([len(class_name)] + [len(a) for a in attributes] + [0])`. */
  function Longest(className: string, attributes: seq<string>): (r: nat)
    ensures r >= |className| && forall k | 0 <= k < |attributes| :: r >= |attributes[k]|
    ensures r == |className| || exists k | 0 <= k < |attributes| :: r == |attributes[k]|
  {
    if attributes == [] then |className|
    else
      var rest := Longest(className, attributes[..|attributes| - 1]);
      var last := |attributes[|attributes| - 1]|;
      if rest >= last then rest else last
  }

  /** `estimate_width`: ten pixels per character of the longest text plus
      the padding, clamped to at most 600 and then to at least the minimum. */
  function EstimateWidth(className: string, attributes: seq<string>, minWidth: int): (w: int)
    ensures w >= minWidth
    ensures minWidth <= MaxWidth ==> w <= MaxWidth
    ensures w == minWidth || w == MaxWidth || w == Padding + CharWidth * Longest(className, attributes)
    ensures minWidth <= Padding + CharWidth * Longest(className, attributes) <= MaxWidth ==>
      w == Padding + CharWidth * Longest(className, attributes)
    ensures minWidth <= MaxWidth < Padding + CharWidth * Longest(className, attributes) ==> w == MaxWidth
    ensures Padding + CharWidth * Longest(className, attributes) < minWidth || MaxWidth < minWidth ==>
      w == minWidth
  {
    var longest := Longest(className, attributes);
    var estimated := Padding + longest * CharWidth;
    var capped := if estimated <= MaxWidth then estimated else MaxWidth;
    if minWidth >= capped then minWidth else capped
  }

  /** With the default minimum the width always lies in [220, 600]. */
  lemma DefaultWidthRange(className: string, attributes: seq<string>)
    ensures DefaultMinWidth <= EstimateWidth(className, attributes, DefaultMinWidth) <= MaxWidth
  {
  }

  /** A longer text never makes the box narrower. */
  lemma {:induction false} EstimateWidthMonotone(className: string, attributes: seq<string>, a: string, minWidth: int)
    ensures EstimateWidth(className, attributes, minWidth) <= EstimateWidth(className, attributes + [a], minWidth)
  {
    var more := attributes + [a];
    assert more[..|more| - 1] == attributes;
    assert Longest(className, more) >= Longest(className, attributes);
  }

  /** The text of one attribute line: a "- " is put in front unless the
      attribute, stripped, already starts with a dash. */
  function Item(attr: string): string
  {
    if LeadsWith(attr, 0, '-') then attr else "- " + attr
  }

  /** The first character of `s` from `i` on that is not white space is `c`. */
  predicate LeadsWith(s: string, i: nat, c: char)
    decreases |s| - i
  {
    i < |s| && (s[i] == c || (IsSpace(s[i]) && LeadsWith(s, i + 1, c)))
  }

  lemma {:induction false} LeadsWithSpan(s: string, i: nat, c: char)
    requires i <= |s| && !IsSpace(c)
    ensures LeadsWith(s, i, c) <==> Span(s, i, Spaces) < |s| && s[Span(s, i, Spaces)] == c
    decreases |s| - i
  {
    if i < |s| && IsSpace(s[i]) {
      LeadsWithSpan(s, i + 1, c);
    }
  }

  /** This is what `attr.strip().startswith(c)` tests, for a non-space `c`. */
  lemma LeadsWithStripped(s: string, c: char)
    requires !IsSpace(c)
    ensures LeadsWith(s, 0, c) <==> StartsWith(Strip(s), [c])
  {
    LeadsWithSpan(s, 0, c);
    var a := Span(s, 0, Spaces);
    var b := TrailStart(s, |s|);
    if a < |s| && s[a] == c {
      assert b > a;
      assert Strip(s) == s[a..b];
    } else if a < b {
      assert Strip(s) == s[a..b];
      assert Strip(s)[0] == s[a];
    }
  }

  function Paragraph(s: string): string { "<p>" + s + "</p>" }

  /** The class name in bold, then the divider. */
  function Header(className: string, divider: string): string
  {
    Paragraph("<strong>" + className + "</strong>") + Paragraph(divider)
  }

  /** The attribute paragraphs, in order. */
  function Lines(attributes: seq<string>): seq<string>
  {
    seq(|attributes|, k requires 0 <= k < |attributes| => Paragraph(Item(attributes[k])))
  }

  /** `"".join(parts)`. */
  function Concat(parts: seq<string>): string
  {
    if parts == [] then [] else Concat(parts[..|parts| - 1]) + parts[|parts| - 1]
  }

  lemma {:induction false} ConcatAppend(p: seq<string>, q: seq<string>)
    ensures Concat(p + q) == Concat(p) + Concat(q)
    decreases |q|
  {
    if q == [] {
      assert p + q == p;
    } else {
      var pq := p + q;
      ConcatAppend(p, q[..|q| - 1]);
      assert pq[..|pq| - 1] == p + q[..|q| - 1];
    }
  }

  function Items(attributes: seq<string>): string { Concat(Lines(attributes)) }

  /** The paragraph for one attribute, dash put in front when missing. */
  method AttributeLine(attr: string) returns (line: string)
    ensures line == Paragraph(Item(attr))
  {
    LeadsWithStripped(attr, '-');
    if !StartsWith(Strip(attr), "-") {
      line := "<p>- " + attr + "</p>";
    } else {
      line := "<p>" + attr + "</p>";
    }
  }

  /** The content loop of `create_class_box`; the divider is a parameter. */
  method BoxContent(className: string, attributes: seq<string>, divider: string) returns (content: string)
    ensures content == Header(className, divider) + Items(attributes)
  {
    content := "<p><strong>" + className + "</strong></p><p>" + divider + "</p>";
    HeaderText(className, divider);
    assert Items([]) == [];
    for i := 0 to |attributes|
      invariant content == Header(className, divider) + Items(attributes[..i])
    {
      var line := AttributeLine(attributes[i]);
      ContentStep(Header(className, divider), attributes, i, content);
      content := content + line;
    }
    assert attributes[..|attributes|] == attributes;
  }

  /** The f-string that opens the content is the header. */
  lemma HeaderText(className: string, divider: string)
    ensures "<p><strong>" + className + "</strong></p><p>" + divider + "</p>" == Header(className, divider)
  {
  }

  /** The loop step: appending the next paragraph keeps the invariant. */
  lemma ContentStep(header: string, attributes: seq<string>, i: nat, content: string)
    requires i < |attributes| && content == header + Items(attributes[..i])
    ensures content + Paragraph(Item(attributes[i])) == header + Items(attributes[..i + 1])
  {
    ItemsStep(attributes, i);
    AppendAssociative(header, Items(attributes[..i]), Paragraph(Item(attributes[i])));
  }

  lemma AppendAssociative(a: string, b: string, c: string)
    ensures (a + b) + c == a + (b + c)
  {
  }

  /** One attribute more adds its paragraph at the end. */
  lemma ItemsStep(attributes: seq<string>, i: nat)
    requires i < |attributes|
    ensures Items(attributes[..i + 1]) == Items(attributes[..i]) + Paragraph(Item(attributes[i]))
  {
    var line := Paragraph(Item(attributes[i]));
    assert Lines(attributes[..i + 1]) == Lines(attributes[..i]) + [line];
    ConcatAppend(Lines(attributes[..i]), [line]);
    assert Concat([line]) == [] + line;
  }

  /** Every attribute line, stripped, starts with a dash, and it ends with
      the attribute's own text. */
  lemma ItemIsDashed(attr: string)
    ensures StartsWith(Strip(Item(attr)), "-")
    ensures EndsWith(Item(attr), attr)
  {
    var t := Item(attr);
    assert LeadsWith(t, 0, '-');
    LeadsWithStripped(t, '-');
    assert t[|t| - |attr|..] == attr;
  }

  /** An attribute that already reads as an item is left alone, so putting
      the prefix on twice gives the same line as once. */
  lemma ItemIdempotent(attr: string)
    ensures Item(Item(attr)) == Item(attr)
  {
    assert LeadsWith(Item(attr), 0, '-');
  }

  /** The content of a box with more attributes continues that of fewer. */
  lemma ItemsAppend(a: seq<string>, b: seq<string>)
    ensures Items(a + b) == Items(a) + Items(b)
  {
    assert Lines(a + b) == Lines(a) + Lines(b);
    ConcatAppend(Lines(a), Lines(b));
  }

  /** `create_class_box`'s box size: the width estimate with the default
      minimum, and room for the name, the divider and one line per attribute. */
  function BoxSize(className: string, attributes: seq<string>): (size: (int, int))
    ensures DefaultMinWidth <= size.0 <= MaxWidth
    ensures size.1 == 90 + 20 * |attributes|
  {
    (EstimateWidth(className, attributes, DefaultMinWidth), EstimateHeight(2 + |attributes|))
  }
}
