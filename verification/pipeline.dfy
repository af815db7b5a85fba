/** How the pieces fit: the client's combined dictionary is what the
    transformer accepts, and the transformer's output is what the validator
    accepts, with validity and warnings traced back to the raw fields. */
module Pipeline {
  import opened Values
  import opened Cleaning
  import opened Infobox
  import opened Client
  import opened Transform
  import opened Validation

  /** The page summary's text fields hold strings or nothing. */
  predicate TextualPage(p: PageData) {
    Textual(p.title) && Textual(p.extract) && Textual(p.description)
  }

  /** The combined figure dictionary is one the transformer accepts: the
      summary's text fields are text, and the infobox only contributes
      strings. */
  lemma FigureDataWellTyped(hits: seq<SearchHit>, pages: string -> Option<PageData>,
                            wikitexts: string -> seq<Option<string>>)
    requires FigureData(hits, pages, wikitexts).Some?
    requires TextualPage(pages(hits[0].title).value)
    ensures WellTyped(FigureData(hits, pages, wikitexts).value)
  {
    var d := FigureData(hits, pages, wikitexts).value;
    var p := pages(hits[0].title).value;
    var info := InfoboxFromPages(wikitexts(hits[0].title));
    forall k | k in d && k in TextKeys ensures Textual(d[k]) {
      if k !in info {
        SharedTextKeys(k);
      }
    }
  }

  /** The summary fields that the transformer cleans. */
  lemma SharedTextKeys(k: string)
    requires k in PageKeys && k in TextKeys
    ensures k == "name" || k == "summary" || k == "description"
  {
    assert k in PageKeys * TextKeys;
    assert PageKeys * TextKeys == {"name", "summary", "description"};
  }

  /** The transformed dictionary can always be validated: its summary is a
      string. */
  lemma TransformedMeasurable(raw: Dict)
    requires WellTyped(raw)
    ensures Measurable(TransformFigureData(raw))
  {
    if raw != map[] {
      FigureDictEntries(TransformFigure(raw).value);
    }
  }

  /** Validating a figure dictionary reads the figure's cleaned name,
      summary, dates and occupation. */
  lemma ValidatedFigure(f: Figure)
    ensures Measurable(FigureDict(f))
    ensures var v := Validate(FigureDict(f));
      && (v.isValid <==> f.name != "" && f.summary != "")
      && (ShortSummary in v.warnings <==> 0 < |f.summary| < 50)
      && (NoDates in v.warnings <==> f.birthDate.None? && f.deathDate.None?)
      && (NoOccupation in v.warnings <==> f.occupation == "")
  {
    var d := FigureDict(f);
    FigureDictEntries(f);
    FigureDictDerived(f);
    assert Get(d, "name") == VStr(f.name) && Get(d, "summary") == VStr(f.summary);
    assert Get(d, "birth_date") == DateValue(f.birthDate);
    assert Get(d, "death_date") == DateValue(f.deathDate);
    assert Get(d, "occupation") == VStr(f.occupation);
  }

  /** Validating a transformed figure: it is valid exactly when its cleaned
      name and summary are non-empty, and each warning traces back to the
      raw fields. */
  lemma TransformedValidation(raw: Dict)
    requires WellTyped(raw) && raw != map[]
    ensures Measurable(TransformFigureData(raw))
    ensures var v := Validate(TransformFigureData(raw));
      && (v.isValid <==> CleanText(TextArg(raw, "name")) != "" && CleanText(TextArg(raw, "summary")) != "")
      && (ShortSummary in v.warnings <==> 0 < |CleanText(TextArg(raw, "summary"))| < 50)
      && (NoDates in v.warnings <==> !Truthy(Get(raw, "birth_date")) && !Truthy(Get(raw, "death_date")))
      && (NoOccupation in v.warnings <==> CleanText(TextArg(raw, "occupation")) == "")
  {
    var f := TransformFigure(raw).value;
    assert TransformFigureData(raw) == FigureDict(f);
    assert f.name == CleanText(TextArg(raw, "name")) && f.summary == CleanText(TextArg(raw, "summary"));
    assert f.occupation == CleanText(TextArg(raw, "occupation"));
    ValidatedFigure(f);
  }
}
