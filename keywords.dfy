/**
 * Keyword filtering of calendar events (`is_hit_keywords_event`) and the keyword
 * editor's round trip between the stored list and the comma-separated text box
 * (`KeywordEditor.__init__` and `KeywordEditor.save`). The keyword list is a
 * parameter instead of being loaded from the configuration file.
 */
module Keywords {
  import opened Wrappers
  import opened Text

  /** `(title or "") + " " + (description or "")`: the text the keywords are looked for in. */
  function EventText(title: Option<string>, description: Option<string>): string {
    title.GetOr("") + " " + description.GetOr("")
  }

  /** Some keyword, lower-cased, occurs in the lower-cased text. */
  predicate KeywordHit(text: string, keywords: seq<string>) {
    exists m :: 0 <= m < |keywords| && Contains(Lower(keywords[m]), Lower(text))
  }

  /** `is_hit_keywords_event`: tries the keywords in order and stops at the first one found. */
  method IsHitKeywordsEvent(title: Option<string>, description: Option<string>, keywords: seq<string>)
    returns (hit: bool)
    ensures hit <==> KeywordHit(EventText(title, description), keywords)
  {
    var combined := Lower(EventText(title, description));
    for i := 0 to |keywords|
      invariant forall m :: 0 <= m < i ==> !Contains(Lower(keywords[m]), combined)
    {
      if Contains(Lower(keywords[i]), combined) {
        return true;
      }
    }
    return false;
  }

  /** With no keywords nothing is a hit. */
  lemma NoKeywordsNoHit(text: string)
    ensures !KeywordHit(text, [])
  {
  }

  /** The order (and the repetition count) of the keywords does not matter, only which ones there are. */
  lemma KeywordOrderIrrelevant(text: string, a: seq<string>, b: seq<string>)
    requires forall k <- a :: k in b
    requires forall k <- b :: k in a
    ensures KeywordHit(text, a) <==> KeywordHit(text, b)
  {
    if KeywordHit(text, a) {
      var m :| 0 <= m < |a| && Contains(Lower(a[m]), Lower(text));
      assert a[m] in b;
      var n :| 0 <= n < |b| && b[n] == a[m];
    }
    if KeywordHit(text, b) {
      var m :| 0 <= m < |b| && Contains(Lower(b[m]), Lower(text));
      assert b[m] in a;
      var n :| 0 <= n < |a| && a[n] == b[m];
    }
  }

  /** An empty keyword matches every event. */
  lemma EmptyKeywordHitsEverything(text: string, keywords: seq<string>)
    requires "" in keywords
    ensures KeywordHit(text, keywords)
  {
    var m :| 0 <= m < |keywords| && keywords[m] == "";
    assert Lower(keywords[m]) <= Lower(text);
  }

  /** Changing the case of the text changes nothing. */
  lemma KeywordHitIgnoresCase(text: string, keywords: seq<string>)
    ensures KeywordHit(Lower(text), keywords) <==> KeywordHit(text, keywords)
  {
    LowerIdempotent(text);
  }

  /** A keyword found, in any case, in the title makes the event a hit whatever its description. */
  lemma TitleMatchHits(title: string, description: Option<string>, keywords: seq<string>, m: nat)
    requires m < |keywords| && Contains(Lower(keywords[m]), Lower(title))
    ensures KeywordHit(EventText(Some(title), description), keywords)
  {
    var rest := " " + description.GetOr("");
    assert EventText(Some(title), description) == title + rest;
    LowerConcat(title, rest);
    ContainsInConcat(Lower(keywords[m]), Lower(title), Lower(rest));
  }

  /** The same holds for a keyword found in the description. */
  lemma DescriptionMatchHits(title: Option<string>, description: string, keywords: seq<string>, m: nat)
    requires m < |keywords| && Contains(Lower(keywords[m]), Lower(description))
    ensures KeywordHit(EventText(title, Some(description)), keywords)
  {
    var lead := title.GetOr("") + " ";
    assert EventText(title, Some(description)) == lead + description;
    LowerConcat(lead, description);
    ContainsInConcat(Lower(keywords[m]), Lower(lead), Lower(description));
  }

  // ---------------------------------------------------------------------------
  // The keyword editor
  // ---------------------------------------------------------------------------

  /** `", ".join(keywords)`: the text the editor shows. */
  function KeywordDisplay(keywords: seq<string>): string {
    Join(keywords, ", ")
  }

  /** `[k.strip() for k in parts if k.strip()]`. */
  function StripNonEmpty(parts: seq<string>): (keywords: seq<string>)
    ensures forall k <- keywords :: IsStrippedWord(k)
    ensures |keywords| <= |parts|
  {
    if parts == [] then []
    else
      var head := Strip(parts[0]);
      if head == [] then StripNonEmpty(parts[1..])
      else
        StrippedIsWord(parts[0]);
        [head] + StripNonEmpty(parts[1..])
  }

  /** The pieces that strip to a keyword, as `StripNonEmpty` keeps them. */
  function KeptHead(p: string): seq<string> {
    if Strip(p) == [] then [] else [Strip(p)]
  }

  lemma StripNonEmptyUnfold(parts: seq<string>)
    requires parts != []
    ensures StripNonEmpty(parts) == KeptHead(parts[0]) + StripNonEmpty(parts[1..])
  {
    var rest := StripNonEmpty(parts[1..]);
    if Strip(parts[0]) == [] {
      assert StripNonEmpty(parts) == rest;
      AppendEmpty(rest);
    } else {
      assert StripNonEmpty(parts) == [Strip(parts[0])] + rest;
    }
  }

  /** Piece `n` strips to the non-empty keyword `k`. */
  predicate StripsTo(parts: seq<string>, n: int, k: string) {
    0 <= n < |parts| && Strip(parts[n]) == k && k != []
  }

  /** A keyword is kept exactly when some piece strips to it and it is not empty. */
  lemma {:induction false} StripNonEmptyMembers(parts: seq<string>)
    ensures forall k :: k in StripNonEmpty(parts) <==> exists n :: StripsTo(parts, n, k)
    decreases |parts|
  {
    if parts != [] {
      var rest := parts[1..];
      StripNonEmptyMembers(rest);
      StripNonEmptyUnfold(parts);
      forall k ensures k in StripNonEmpty(parts) <==> exists n :: StripsTo(parts, n, k) {
        if k in StripNonEmpty(parts) {
          KeptFromHeadOrRest(parts, k);
        }
        if exists n :: StripsTo(parts, n, k) {
          var n :| StripsTo(parts, n, k);
          if n == 0 {
            assert k in KeptHead(parts[0]);
          } else {
            assert StripsTo(rest, n - 1, k);
          }
        }
      }
    }
  }

  lemma KeptFromHeadOrRest(parts: seq<string>, k: string)
    requires parts != [] && k in KeptHead(parts[0]) + StripNonEmpty(parts[1..])
    requires k in StripNonEmpty(parts[1..]) ==> exists n :: StripsTo(parts[1..], n, k)
    ensures exists n :: StripsTo(parts, n, k)
  {
    if k in KeptHead(parts[0]) {
      KeptHeadWitness(parts, k);
    } else {
      KeptRestWitness(parts, k);
    }
  }

  lemma KeptHeadWitness(parts: seq<string>, k: string)
    requires parts != [] && k in KeptHead(parts[0])
    ensures StripsTo(parts, 0, k)
  {
  }

  lemma KeptRestWitness(parts: seq<string>, k: string)
    requires parts != [] && exists n :: StripsTo(parts[1..], n, k)
    ensures exists n :: StripsTo(parts, n, k)
  {
    var n :| StripsTo(parts[1..], n, k);
    assert parts[1..][n] == parts[n + 1];
    assert StripsTo(parts, n + 1, k);
  }

  /** Pieces typed one after the other give their keywords one after the other: the order is kept. */
  lemma {:induction false} StripNonEmptyConcat(a: seq<string>, b: seq<string>)
    ensures StripNonEmpty(a + b) == StripNonEmpty(a) + StripNonEmpty(b)
    decreases |a|
  {
    if a == [] {
      assert a + b == b;
    } else {
      StripNonEmptyConcat(a[1..], b);
      AppendTail(a, b);
      StripNonEmptyUnfold(a);
      StripNonEmptyUnfold(a + b);
      AppendAssoc(KeptHead(a[0]), StripNonEmpty(a[1..]), StripNonEmpty(b));
    }
  }

  /** `KeywordEditor.save`: the text box split at commas, each piece stripped, empty pieces dropped. */
  function ParseKeywords(raw: string): (keywords: seq<string>)
    ensures forall k <- keywords :: IsStrippedWord(k) && ',' !in k
  {
    var parts := Split(raw, ",");
    SplitPartsAvoidSeparator(raw, ',');
    StripNonEmptyAvoids(parts, ',');
    StripNonEmpty(parts)
  }

  lemma {:induction false} StripNonEmptyAvoids(parts: seq<string>, c: char)
    requires forall p <- parts :: c !in p
    ensures forall k <- StripNonEmpty(parts) :: c !in k
  {
    if parts != [] {
      assert parts[0] in parts;
      StripKeepsAbsent(parts[0], c);
      StripNonEmptyAvoids(parts[1..], c);
    }
  }

  /** A keyword the editor can hold: stripped, not empty, no comma. */
  predicate IsEditableKeyword(k: string) {
    IsStrippedWord(k) && ',' !in k
  }

  /**
   * Saving the editor without touching it gives back the stored list: the display,
   * with the newline the text box appends, parses to the same keywords.
   */
  lemma KeywordEditRoundTrip(keywords: seq<string>)
    requires forall k <- keywords :: IsEditableKeyword(k)
    ensures ParseKeywords(KeywordDisplay(keywords) + "\n") == keywords
  {
    assert [] + Join(keywords, ", ") + "\n" == Join(keywords, ", ") + "\n";
    ParseAfterLead([], keywords);
  }

  lemma {:induction false} ParseAfterLead(lead: string, keywords: seq<string>)
    requires AllIn(lead, Whitespace) && ',' !in lead
    requires forall k <- keywords :: IsEditableKeyword(k)
    ensures StripNonEmpty(Split(lead + Join(keywords, ", ") + "\n", ",")) == keywords
    decreases |keywords|
  {
    if keywords == [] {
      ParseLeadOnly(lead);
    } else if |keywords| == 1 {
      assert keywords[0] in keywords;
      ParseLastKeyword(lead, keywords[0]);
    } else {
      assert keywords[0] in keywords;
      assert forall k' <- keywords[1..] :: k' in keywords;
      ParseAfterLead(" ", keywords[1..]);
      ParseNextKeyword(lead, keywords);
    }
  }

  lemma ParseLeadOnly(lead: string)
    requires AllIn(lead, Whitespace) && ',' !in lead
    ensures StripNonEmpty(Split(lead + Join([], ", ") + "\n", ",")) == []
  {
    var s := lead + Join([], ", ") + "\n";
    assert s == lead + "\n";
    assert AllIn(s, Whitespace);
    SplitNoSeparator(s, ',');
    StripAllWhitespace(s);
  }

  lemma ParseLastKeyword(lead: string, k: string)
    requires AllIn(lead, Whitespace) && ',' !in lead
    requires IsEditableKeyword(k)
    ensures StripNonEmpty(Split(lead + Join([k], ", ") + "\n", ",")) == [k]
  {
    var s := lead + Join([k], ", ") + "\n";
    assert s == lead + k + "\n";
    SplitNoSeparator(s, ',');
    StripPadded(lead, k, "\n");
  }

  lemma ParseNextKeyword(lead: string, keywords: seq<string>)
    requires AllIn(lead, Whitespace) && ',' !in lead
    requires |keywords| >= 2 && IsEditableKeyword(keywords[0])
    requires StripNonEmpty(Split(" " + Join(keywords[1..], ", ") + "\n", ",")) == keywords[1..]
    ensures StripNonEmpty(Split(lead + Join(keywords, ", ") + "\n", ",")) == keywords
  {
    var k, field := keywords[0], lead + keywords[0];
    var rest := " " + Join(keywords[1..], ", ") + "\n";
    var parts := Split(rest, ",");
    DisplayShape(lead, keywords);
    LeadKeywordField(lead, k);
    SplitAfterField(field, ',', rest);
    assert Split(lead + Join(keywords, ", ") + "\n", ",") == [field] + parts;
    StripNonEmptyCons(field, parts);
    assert StripNonEmpty([field] + parts) == [k] + keywords[1..];
    assert [k] + keywords[1..] == keywords;
  }

  /** Whitespace and a keyword form one field of the display that strips to the keyword. */
  lemma LeadKeywordField(lead: string, k: string)
    requires AllIn(lead, Whitespace) && ',' !in lead
    requires IsEditableKeyword(k)
    ensures ',' !in lead + k && Strip(lead + k) == k
  {
    assert lead + k + [] == lead + k;
    StripPadded(lead, k, []);
  }

  lemma DisplayShape(lead: string, keywords: seq<string>)
    requires |keywords| >= 2
    ensures lead + Join(keywords, ", ") + "\n"
         == (lead + keywords[0]) + [','] + (" " + Join(keywords[1..], ", ") + "\n")
  {
  }

  lemma StripNonEmptyCons(p: string, parts: seq<string>)
    requires Strip(p) != []
    ensures StripNonEmpty([p] + parts) == [Strip(p)] + StripNonEmpty(parts)
  {
    assert ([p] + parts)[1..] == parts;
  }
}
