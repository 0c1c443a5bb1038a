/**
 * The response parser of the report analyzer: for each of seven fixed
 * section tags, the body between the first `<tag>` and the first `</tag>`
 * after it (the lazy, dot-all pattern `<tag>(.*?)</tag>`), trimmed.
 */
module ResponseParser {
  import opened Wrappers
  import opened Text

  /** The section tags, in the order they are looked for. */
  const SectionTags: seq<string> := [
    "executive_summary",
    "key_performance_indicators",
    "market_trends",
    "ai_developments",
    "future_outlook",
    "risks_and_challenges",
    "conclusion"
  ]

  function OpenTag(tag: string): string { "<" + tag + ">" }

  function CloseTag(tag: string): string { "</" + tag + ">" }

  /** Some `<tag>` is followed, somewhere after it, by a `</tag>`. */
  ghost predicate HasSection(response: string, tag: string) {
    exists i, j :: OccursAt(response, OpenTag(tag), i) && i + |OpenTag(tag)| <= j && OccursAt(response, CloseTag(tag), j)
  }

  /** `i` is the first `<tag>`, and `j` the first `</tag>` that starts after it ends. */
  ghost predicate FirstMatch(response: string, tag: string, i: nat, j: nat) {
    && OccursAt(response, OpenTag(tag), i)
    && (forall k :: 0 <= k < i ==> !OccursAt(response, OpenTag(tag), k))
    && i + |OpenTag(tag)| <= j
    && OccursAt(response, CloseTag(tag), j)
    && (forall k :: i + |OpenTag(tag)| <= k < j ==> !OccursAt(response, CloseTag(tag), k))
  }

  /**
   * Where the leftmost, lazy match of `<tag>(.*?)</tag>` lies: the first
   * `<tag>` and the first `</tag>` after it, or `None` when there is none.
   */
  function SectionBounds(response: string, tag: string): (m: Option<(nat, nat)>)
    ensures m.Some? <==> HasSection(response, tag)
    ensures m.Some? ==> FirstMatch(response, tag, m.value.0, m.value.1)
  {
    var open, close := OpenTag(tag), CloseTag(tag);
    match IndexOf(response, open, 0)
    case None =>
      NoOpenNoSection(response, tag);
      None
    case Some(i) =>
      match IndexOf(response, close, i + |open|)
      case None =>
        NoCloseNoSection(response, tag, i);
        None
      case Some(j) =>
        assert FirstMatch(response, tag, i, j);
        Some((i, j))
  }

  lemma NoOpenNoSection(response: string, tag: string)
    requires IndexOf(response, OpenTag(tag), 0).None?
    ensures !HasSection(response, tag)
  {
  }

  lemma NoCloseNoSection(response: string, tag: string, i: nat)
    requires IndexOf(response, OpenTag(tag), 0) == Some(i)
    requires IndexOf(response, CloseTag(tag), i + |OpenTag(tag)|).None?
    ensures !HasSection(response, tag)
  {
  }

  /** There is at most one first match. */
  lemma FirstMatchUnique(response: string, tag: string, i: nat, j: nat, i': nat, j': nat)
    requires FirstMatch(response, tag, i, j) && FirstMatch(response, tag, i', j')
    ensures i == i' && j == j'
  {
  }

  /** The body of a first match never contains the closing tag, even once trimmed. */
  lemma BodyHasNoClose(response: string, tag: string, i: nat, j: nat)
    requires FirstMatch(response, tag, i, j)
    ensures !Contains(Trim(response[i + |OpenTag(tag)|..j]), CloseTag(tag))
  {
    var close := CloseTag(tag);
    var body := response[i + |OpenTag(tag)|..j];
    assert !Contains(body, close) by {
      if Contains(body, close) {
        OccursInSlice(response, i + |OpenTag(tag)|, j, close, IndexOf(body, close, 0).value);
      }
    }
    TrimKeepsAbsence(body, close);
  }

  /**
   * The value `response.match(/<tag>(.*?)<\/tag>/s)[1].trim()`, or `None` when
   * the pattern does not match. Because the match is leftmost and lazy, the
   * body starts after the first `<tag>` and ends at the first `</tag>` after it.
   */
  function ParseSection(response: string, tag: string): (r: Option<string>)
    ensures r.Some? <==> HasSection(response, tag)
    ensures r.Some? ==> !Contains(r.value, CloseTag(tag))
    ensures r.Some? ==> IsTrimmed(r.value)
  {
    match SectionBounds(response, tag)
    case None => None
    case Some((i, j)) =>
      BodyHasNoClose(response, tag, i, j);
      Some(Trim(response[i + |OpenTag(tag)|..j]))
  }

  /** Whenever `i`, `j` is the first match, the section is the trimmed text between the tags. */
  lemma ParseSectionValue(response: string, tag: string, i: nat, j: nat)
    requires FirstMatch(response, tag, i, j)
    ensures ParseSection(response, tag) == Some(Trim(response[i + |OpenTag(tag)|..j]))
  {
    BoundsOfFirstMatch(response, tag, i, j);
    SectionAtBounds(response, tag, i, j);
  }

  lemma BoundsOfFirstMatch(response: string, tag: string, i: nat, j: nat)
    requires FirstMatch(response, tag, i, j)
    ensures SectionBounds(response, tag) == Some((i, j))
  {
    var m := SectionBounds(response, tag);
    assert HasSection(response, tag);
    FirstMatchUnique(response, tag, i, j, m.value.0, m.value.1);
  }

  lemma SectionAtBounds(response: string, tag: string, i: nat, j: nat)
    requires SectionBounds(response, tag) == Some((i, j))
    ensures i + |OpenTag(tag)| <= j <= |response|
    ensures ParseSection(response, tag) == Some(Trim(response[i + |OpenTag(tag)|..j]))
  {
  }

  /**
   * `parseAnalysisResponse`: the sections found, keyed by tag. The keys are
   * always among the seven tags; a tag is a key exactly when its section
   * occurs; every value is trimmed and never contains the closing tag.
   */
  function ParseAnalysisResponse(response: string): (sections: map<string, string>)
    ensures forall tag :: tag in sections ==> tag in SectionTags
    ensures forall tag :: tag in SectionTags ==> (tag in sections <==> HasSection(response, tag))
    ensures forall tag :: tag in sections ==> Some(sections[tag]) == ParseSection(response, tag)
    ensures forall tag :: tag in sections ==> !Contains(sections[tag], CloseTag(tag))
    ensures forall tag :: tag in sections ==> IsTrimmed(sections[tag])
  {
    map tag | tag in SectionTags && ParseSection(response, tag).Some? :: ParseSection(response, tag).value
  }

  /** The parse is structured (has at least one key) exactly when some tag's section occurs. */
  lemma StructuredIff(response: string)
    ensures |ParseAnalysisResponse(response)| > 0 <==> exists tag :: tag in SectionTags && HasSection(response, tag)
  {
    var sections := ParseAnalysisResponse(response);
    if |sections| > 0 {
      var tag :| tag in sections;
      assert tag in SectionTags && HasSection(response, tag);
    }
    if exists tag :: tag in SectionTags && HasSection(response, tag) {
      var tag :| tag in SectionTags && HasSection(response, tag);
      assert tag in sections;
    }
  }
}
