/** The class-name gate of the extractor (app/extract.py): the constant word
    tables, `_normalize_class_name`, `_is_likely_attribute` and `_ok_concept`. */
module Concepts {
  import opened Text

  /** `_STOPWORDS`. */
  const Stopwords: seq<string> :=
    ["the", "a", "an", "and", "or", "to", "of", "in", "on", "for", "with", "by", "is", "are", "be",
     "as", "at", "from", "this", "that", "these", "those", "system", "shall", "must", "should",
     "can", "may", "will", "req", "fr", "nfr", "us", "info", "def", "con", "project", "document",
     "scope", "stakeholders", "each", "person", "one", "more", "exactly", "zero", "all", "within",
     "between", "greater", "less", "than", "equal", "not", "i", "we", "you", "they", "it", "he",
     "she", "commerce", "management", "specification", "version", "introduction", "purpose",
     "functional", "non-functional", "registered", "temporary", "financial", "item", "purchase"]

  /** `_ATTRIBUTE_KEYWORDS`: words that name attributes, not classes. */
  const AttributeKeywords: seq<string> :=
    ["id", "name", "email", "password", "address", "phone", "date", "time", "amount", "price",
     "quantity", "status", "description", "type", "code", "number", "value", "flag", "url", "path",
     "key", "token", "timestamp", "created", "updated", "modified", "deleted", "active", "enabled",
     "firstname", "lastname", "username", "fullname", "displayname", "street", "city", "state",
     "country", "zipcode", "postalcode", "total", "subtotal", "discount", "tax", "shipping",
     "rating", "comment", "proof", "stock", "unit", "transaction"]

  /** The suffixes that mark a token as an attribute. */
  const AttributeSuffixes: seq<string> :=
    ["id", "name", "date", "time", "amount", "price", "count", "number", "code", "status", "type", "quantity"]

  /** Common words rejected as classes even when not stopwords. */
  const Denylist: seq<string> := ["email", "price", "quantity", "rating", "proof", "zero", "stock"]

  /** `re.match(r'^[A-Z][a-z]+[A-Z]', name)`. */
  predicate IsCamelHead(name: string)
  {
    |name| > 0 && IsUpper(name[0]) &&
    var j := Span(name, 1, Lowers);
    j > 1 && j < |name| && IsUpper(name[j])
  }

  /** `str.capitalize`: the first character upper case, the rest lower case. */
  function Capitalize(s: string): (r: string)
    ensures |r| == |s|
    ensures s != [] ==> r[0] == UpperChar(s[0]) && r[1..] == Lower(s[1..])
  {
    if s == [] then [] else [UpperChar(s[0])] + Lower(s[1..])
  }

  /** `_normalize_class_name`. */
  function NormalizeClassName(name: string): string
  {
    if IsCamelHead(name) then name else Capitalize(name)
  }

  /** A capitalized string has no upper-case letter after its first
      character, so it is not a camel-case head. */
  lemma CapitalizedIsNotCamel(s: string)
    ensures !IsCamelHead(Capitalize(s))
  {
    var c := Capitalize(s);
    if |c| > 0 {
      var j := Span(c, 1, Lowers);
      if j < |c| {
        assert c[j] == Lower(s[1..])[j - 1];
        assert !IsUpper(c[j]);
      }
    }
  }

  /** The normalized name is its own normal form. */
  lemma NormalizeIdempotent(name: string)
    ensures NormalizeClassName(NormalizeClassName(name)) == NormalizeClassName(name)
  {
    if !IsCamelHead(name) {
      var c := Capitalize(name);
      CapitalizedIsNotCamel(name);
      if c != [] {
        var cc := Capitalize(c);
        assert cc[0] == c[0];
        assert cc[1..] == c[1..];
        assert cc == [cc[0]] + cc[1..];
        assert c == [c[0]] + c[1..];
      }
    }
  }

  /** Normalizing only changes letter case; a camel-case head is kept as it
      is, anything else is capitalized, so the result never starts with a
      lower-case letter. */
  lemma NormalizeChangesCaseOnly(name: string)
    ensures |NormalizeClassName(name)| == |name|
    ensures Lower(NormalizeClassName(name)) == Lower(name)
    ensures IsCamelHead(name) ==> NormalizeClassName(name) == name
    ensures !IsCamelHead(name) && name != [] ==>
      NormalizeClassName(name)[0] == UpperChar(name[0]) && NormalizeClassName(name)[1..] == Lower(name[1..])
    ensures name != [] ==> !IsLower(NormalizeClassName(name)[0])
  {
    if !IsCamelHead(name) && name != [] {
      var r := Capitalize(name);
      forall k | 0 <= k < |name|
        ensures Lower(r)[k] == Lower(name)[k]
      {
        if k > 0 { assert r[k] == Lower(name[1..])[k - 1]; }
      }
    }
  }

  /** `re.match(r'^[a-z]+[A-Z][a-zA-Z]*$', token)`; `$` also matches just
      before a final newline. */
  predicate IsLowerCamel(token: string)
  {
    var a := Span(token, 0, Lowers);
    a > 0 && a < |token| && IsUpper(token[a]) &&
    var b := Span(token, a + 1, Letters);
    b == |token| || (b + 1 == |token| && token[b] == '\n')
  }

  /** `_is_likely_attribute`. */
  predicate IsLikelyAttribute(token: string)
  {
    var low := Lower(token);
    OneOf(low, AttributeKeywords) || EndsWithAny(low, AttributeSuffixes) || IsLowerCamel(token)
  }

  /** `re.fullmatch(r"\d+", token)`. */
  predicate AllDigits(token: string)
  {
    |token| > 0 && forall k | 0 <= k < |token| :: IsDigit(token[k])
  }

  /** `re.fullmatch(r"(req|fr|nfr|us)\s*[-:]?\s*\d+", low)`. */
  predicate IsRequirementIdToken(low: string)
  {
    IdWithPrefix(low, ["req", "fr", "nfr", "us"])
  }

  /** `low` is one of `prefixes`, then the separator and digits, and nothing more. */
  predicate IdWithPrefix(low: string, prefixes: seq<string>)
    decreases |prefixes|
  {
    prefixes != [] &&
    ((At(low, 0, prefixes[0]) && SeparatorDigitsEnd(low, |prefixes[0]|) == Some(|low|))
     || IdWithPrefix(low, prefixes[1..]))
  }

  lemma {:induction false} IdWithPrefixExists(low: string, prefixes: seq<string>)
    ensures IdWithPrefix(low, prefixes) <==>
      exists tok | tok in prefixes :: At(low, 0, tok) && SeparatorDigitsEnd(low, |tok|) == Some(|low|)
    decreases |prefixes|
  {
    if prefixes != [] {
      IdWithPrefixExists(low, prefixes[1..]);
      assert forall tok | tok in prefixes :: tok == prefixes[0] || tok in prefixes[1..];
    }
  }

  /** `re.fullmatch(r"[a-z]+-\d+", low)`. */
  predicate IsDashedNumber(low: string)
  {
    var a := Span(low, 0, Lowers);
    0 < a && a + 1 < |low| && low[a] == '-' && Span(low, a + 1, Digits) == |low|
  }

  /** `_ok_concept`: the gate every class name passes. */
  predicate OkConcept(token: string)
  {
    var low := Lower(token);
    if token == "Address" then true
    else if |token| < 3 then false
    else if OneOf(low, Stopwords) then false
    else if AllDigits(token) then false
    else if IsRequirementIdToken(low) then false
    else if IsDashedNumber(low) then false
    else if OneOf(low, Denylist) then false
    else if IsLikelyAttribute(token) then false
    else true
  }

  /** Every accepted name has at least three characters; every accepted
      name other than "Address" is no stopword, no number, no requirement
      id, no dashed number, not on the denylist and not attribute-like. (Each
      denylist word is also a stopword or an attribute keyword, so that rule
      never decides on its own.) */
  lemma OkConceptBounds(token: string)
    requires OkConcept(token)
    ensures |token| >= 3
    ensures token != "Address" ==>
      Lower(token) !in Stopwords && !AllDigits(token) && !IsRequirementIdToken(Lower(token))
      && !IsDashedNumber(Lower(token)) && Lower(token) !in Denylist && !IsLikelyAttribute(token)
  {
    OneOfIn(Lower(token), Stopwords);
    OneOfIn(Lower(token), Denylist);
  }

  /** A token in the `[a-z]+-\d+` shape, such as "Order-12", is rejected. */
  lemma DashedNumberRejected()
    ensures IsDashedNumber(Lower("Order-12")) && !OkConcept("Order-12")
  {
    var low := Lower("Order-12");
    assert low == "order-12";
    assert Span(low, 0, Lowers) == 5;
    assert Span(low, 6, Digits) == 8;
  }

  /** "Address" is the one accepted name that is an attribute keyword. */
  lemma OnlyAddressIsKeyword(token: string)
    requires OkConcept(token) && Lower(token) in AttributeKeywords
    ensures token == "Address"
  {
    OneOfIn(Lower(token), AttributeKeywords);
  }

  /** A normalized name never starts with a lower-case letter, so the
      camel-case attribute rule cannot reject it. */
  lemma NormalizedIsNotLowerCamel(name: string)
    ensures !IsLowerCamel(NormalizeClassName(name))
  {
    NormalizeChangesCaseOnly(name);
    var r := NormalizeClassName(name);
    if r != [] {
      assert !IsLower(r[0]);
      assert Span(r, 0, Lowers) == 0;
    }
  }
}
