/** `DataTransformer.transform_figure_data`: the raw figure dictionary is
    cleaned field by field, its dates parsed, categories and historical
    period derived, and the media fields copied through. The `last_updated`
    timestamp is not part of the model. */
module Transform {
  import opened Values
  import opened Text
  import opened Cleaning
  import opened Dates
  import opened Categories
  import opened Periods

  /** The transformed figure, one field per key of the result dictionary. */
  datatype Figure = Figure(
    name: string,
    summary: string,
    description: string,
    birthDate: Option<ParsedDate>,
    deathDate: Option<ParsedDate>,
    age: Option<int>,
    period: Period,
    birthPlace: string,
    deathPlace: string,
    occupation: string,
    nationality: string,
    categories: seq<Category>,
    imageUrl: Value,
    wikipediaUrl: Value,
    coordinates: Value,
    kind: Value)

  /** The keys whose values go through `clean_text` or `parse_date`. */
  const TextKeys: set<string> :=
    {"name", "summary", "description", "birth_date", "death_date",
     "birth_place", "death_place", "occupation", "nationality"}

  /** What `clean_text` and `parse_date` accept: a string, or any falsy
      value, on which both return before looking at it. */
  predicate Textual(v: Value) {
    v.VStr? || !Truthy(v)
  }

  predicate WellTyped(raw: Dict) {
    forall k :: k in raw && k in TextKeys ==> Textual(raw[k])
  }

  /** `raw_data.get(key, '')` as the text functions see it: a falsy value
      behaves like the empty string. */
  function TextArg(raw: Dict, key: string): (s: string)
    requires key in raw ==> Textual(raw[key])
    ensures s == "" <==> !Truthy(Get(raw, key))
    ensures key in raw && raw[key].VStr? ==> s == raw[key].s
  {
    if key in raw && raw[key].VStr? then raw[key].s else ""
  }

  /** `death_date['year'] - birth_date['year']` when both records carry a
      year, and `None` otherwise. */
  function AgeOf(birth: Option<ParsedDate>, death: Option<ParsedDate>): (a: Option<int>)
    ensures a.Some? <==> birth.Some? && death.Some? && birth.value.HasYear() && death.value.HasYear()
    ensures a.Some? ==> birth.value.year + a.value == death.value.year
  {
    if birth.Some? && death.Some? && birth.value.HasYear() && death.value.HasYear() then
      Some(death.value.year - birth.value.year)
    else None
  }

  /** `transform_figure_data(raw_data)`: `None` stands for the empty
      dictionary returned for empty input. */
  function TransformFigure(raw: Dict): (r: Option<Figure>)
    requires WellTyped(raw)
    ensures r.None? <==> raw == map[]
    ensures r.Some? ==> r.value.name == CleanText(TextArg(raw, "name"))
    ensures r.Some? ==> r.value.summary == CleanText(TextArg(raw, "summary"))
    ensures r.Some? ==> r.value.description == CleanText(TextArg(raw, "description"))
    ensures r.Some? ==> r.value.birthPlace == CleanText(TextArg(raw, "birth_place"))
    ensures r.Some? ==> r.value.deathPlace == CleanText(TextArg(raw, "death_place"))
    ensures r.Some? ==> r.value.occupation == CleanText(TextArg(raw, "occupation"))
    ensures r.Some? ==> r.value.nationality == CleanText(TextArg(raw, "nationality"))
    ensures r.Some? ==> r.value.birthDate == ParseDate(TextArg(raw, "birth_date"))
    ensures r.Some? ==> r.value.deathDate == ParseDate(TextArg(raw, "death_date"))
    ensures r.Some? ==> r.value.birthDate.None? <==> !Truthy(Get(raw, "birth_date"))
    ensures r.Some? ==> r.value.deathDate.None? <==> !Truthy(Get(raw, "death_date"))
    ensures r.Some? ==> r.value.age == AgeOf(r.value.birthDate, r.value.deathDate)
    ensures r.Some? ==> r.value.period == HistoricalPeriod(r.value.birthDate, r.value.deathDate)
    ensures r.Some? ==> r.value.imageUrl == GetOr(raw, "image_url", VStr(""))
    ensures r.Some? ==> r.value.wikipediaUrl == GetOr(raw, "wikipedia_url", VStr(""))
    ensures r.Some? ==> r.value.coordinates == GetOr(raw, "coordinates", VDict(map[]))
    ensures r.Some? ==> r.value.kind == GetOr(raw, "type", VStr(""))
  {
    if raw == map[] then None
    else
      var summary := CleanText(TextArg(raw, "summary"));
      var birth := ParseDate(TextArg(raw, "birth_date"));
      var death := ParseDate(TextArg(raw, "death_date"));
      Some(Figure(
        name := CleanText(TextArg(raw, "name")),
        summary := summary,
        description := CleanText(TextArg(raw, "description")),
        birthDate := birth,
        deathDate := death,
        age := AgeOf(birth, death),
        period := HistoricalPeriod(birth, death),
        birthPlace := CleanText(TextArg(raw, "birth_place")),
        deathPlace := CleanText(TextArg(raw, "death_place")),
        occupation := CleanText(TextArg(raw, "occupation")),
        nationality := CleanText(TextArg(raw, "nationality")),
        categories := ExtractCategories(summary),
        imageUrl := GetOr(raw, "image_url", VStr("")),
        wikipediaUrl := GetOr(raw, "wikipedia_url", VStr("")),
        coordinates := GetOr(raw, "coordinates", VDict(map[])),
        kind := GetOr(raw, "type", VStr(""))))
  }

  /** Text with no whitespace at either end, as `clean_text` leaves it. */
  predicate Trimmed(s: string) {
    |s| > 0 ==> !IsSpace(s[0]) && !IsSpace(s[|s| - 1])
  }

  /** Every cleaned text field comes out trimmed. */
  lemma TransformTrims(raw: Dict)
    requires WellTyped(raw) && raw != map[]
    ensures var f := TransformFigure(raw).value;
      Trimmed(f.name) && Trimmed(f.summary) && Trimmed(f.description)
      && Trimmed(f.birthPlace) && Trimmed(f.deathPlace)
      && Trimmed(f.occupation) && Trimmed(f.nationality)
  {
  }

  /** The categories of a transformed figure are those whose keywords its
      cleaned summary mentions, in table order. */
  lemma TransformCategories(raw: Dict)
    requires WellTyped(raw) && raw != map[]
    ensures var f := TransformFigure(raw).value;
      && (forall c :: c in f.categories <==> Applies(c, f.summary))
      && InTableOrder(f.categories)
  {
  }

  /** Categories come from the summary alone: two inputs with the same
      summary text get the same categories, whatever else they hold. */
  lemma CategoriesFromSummaryOnly(raw1: Dict, raw2: Dict)
    requires WellTyped(raw1) && WellTyped(raw2) && raw1 != map[] && raw2 != map[]
    requires TextArg(raw1, "summary") == TextArg(raw2, "summary")
    ensures TransformFigure(raw1).value.categories == TransformFigure(raw2).value.categories
  {
  }

  /** A name given as a piped wiki link comes out as the link's caption. */
  lemma LinkedNameCleaned(raw: Dict, target: string, caption: string)
    requires WellTyped(raw)
    requires "name" in raw && raw["name"] == VStr(Link(target, caption))
    requires PipedLink(target, caption) && '<' !in target && SingleSpaced(target)
    requires NoMarkup(caption) && Tidy(caption)
    ensures TransformFigure(raw).value.name == caption
  {
    CleanTextLink(target, caption);
  }

  /** The record `parse_date` returns, as a dictionary. */
  function DateValue(d: Option<ParsedDate>): (v: Value)
    ensures d.None? <==> v == VNone
    ensures d.Some? ==> v.VDict? && Truthy(v)
    ensures d.Some? ==> ("year" in v.entries <==> d.value.HasYear())
  {
    match d
    case None => VNone
    case Some(NamedMonthDate(day, month, year, formatted, raw)) =>
      VDict(map["day" := VInt(day), "month" := VStr(month), "year" := VInt(year),
                "formatted" := VStr(formatted), "raw" := VStr(raw)])
    case Some(YearOnly(year, formatted, raw)) =>
      VDict(map["year" := VInt(year), "formatted" := VStr(formatted), "raw" := VStr(raw)])
    case Some(NumericDate(day, month, year, formatted, raw)) =>
      VDict(map["day" := VInt(day), "month" := VInt(month), "year" := VInt(year),
                "formatted" := VStr(formatted), "raw" := VStr(raw)])
    case Some(Unparsed(formatted, raw)) =>
      VDict(map["formatted" := VStr(formatted), "raw" := VStr(raw)])
  }

  /** A natural number stored under `key`. */
  function NatAt(m: Dict, key: string): Option<nat> {
    if key in m && m[key].VInt? && m[key].i >= 0 then Some(m[key].i as nat) else None
  }

  /** Reads a date dictionary back: the keys present decide which record it
      is, as the transformer's `'year' in date` tests do. */
  function DateOfValue(v: Value): Option<ParsedDate> {
    if !v.VDict? then None
    else
      var m := v.entries;
      if !("formatted" in m && m["formatted"].VStr? && "raw" in m && m["raw"].VStr?) then None
      else
        var formatted, raw := m["formatted"].s, m["raw"].s;
        match NatAt(m, "year")
        case None => if "year" in m then None else Some(Unparsed(formatted, raw))
        case Some(year) =>
          if "day" !in m then Some(YearOnly(year, formatted, raw))
          else match NatAt(m, "day")
            case None => None
            case Some(day) =>
              if "month" in m && m["month"].VStr? then
                Some(NamedMonthDate(day, m["month"].s, year, formatted, raw))
              else match NatAt(m, "month")
                case Some(month) => Some(NumericDate(day, month, year, formatted, raw))
                case None => None
  }

  /** The dictionary form loses nothing. */
  lemma DateValueRoundTrip(d: Option<ParsedDate>)
    ensures DateOfValue(DateValue(d)) == d
  {
  }

  function Labels(cs: seq<Category>): (r: seq<string>)
    ensures |r| == |cs| && forall i :: 0 <= i < |cs| ==> r[i] == Label(cs[i])
  {
    seq(|cs|, i requires 0 <= i < |cs| => Label(cs[i]))
  }

  /** The keys of the transformed dictionary, `last_updated` aside. */
  const FigureKeys: set<string> :=
    {"name", "summary", "description", "birth_date", "death_date", "age",
     "historical_period", "birth_place", "death_place", "occupation",
     "nationality", "categories", "image_url", "wikipedia_url", "coordinates", "type"}

  /** The value the transformer stores under `key`; `type` is the last
      key. */
  function FigureField(f: Figure, key: string): Value {
    if key == "name" then VStr(f.name)
    else if key == "summary" then VStr(f.summary)
    else if key == "birth_date" then DateValue(f.birthDate)
    else if key == "death_date" then DateValue(f.deathDate)
    else if key == "occupation" then VStr(f.occupation)
    else if key == "description" then VStr(f.description)
    else if key == "age" then (if f.age.Some? then VInt(f.age.value) else VNone)
    else if key == "historical_period" then VStr(PeriodLabel(f.period))
    else if key == "birth_place" then VStr(f.birthPlace)
    else if key == "death_place" then VStr(f.deathPlace)
    else if key == "nationality" then VStr(f.nationality)
    else if key == "categories" then StrList(Labels(f.categories))
    else if key == "image_url" then f.imageUrl
    else if key == "wikipedia_url" then f.wikipediaUrl
    else if key == "coordinates" then f.coordinates
    else f.kind
  }

  /** The transformed figure as the dictionary the transformer returns. */
  function FigureDict(f: Figure): (d: Dict)
    ensures d.Keys == FigureKeys
    ensures forall k :: k in FigureKeys ==> d[k] == FigureField(f, k)
  {
    map k | k in FigureKeys :: FigureField(f, k)
  }

  /** Each text and media field of the figure sits under its own key. */
  lemma FigureDictEntries(f: Figure)
    ensures var d := FigureDict(f);
      && d["name"] == VStr(f.name) && d["summary"] == VStr(f.summary)
      && d["description"] == VStr(f.description)
      && d["birth_place"] == VStr(f.birthPlace) && d["death_place"] == VStr(f.deathPlace)
      && d["occupation"] == VStr(f.occupation) && d["nationality"] == VStr(f.nationality)
      && d["image_url"] == f.imageUrl && d["wikipedia_url"] == f.wikipediaUrl
      && d["coordinates"] == f.coordinates && d["type"] == f.kind
  {
  }

  /** The dates, age, period and categories of the figure sit under their
      keys in dictionary form. */
  lemma FigureDictDerived(f: Figure)
    ensures var d := FigureDict(f);
      && d["birth_date"] == DateValue(f.birthDate) && d["death_date"] == DateValue(f.deathDate)
      && (f.age.None? <==> d["age"] == VNone)
      && (f.age.Some? ==> d["age"] == VInt(f.age.value))
      && d["historical_period"] == VStr(PeriodLabel(f.period))
      && d["categories"] == StrList(Labels(f.categories))
  {
  }

  /** A list of category labels names each listed category and nothing
      else, and a list in table order has no label twice. */
  lemma LabelsListed(cs: seq<Category>)
    ensures var items := StrList(Labels(cs)).items;
      && (forall c :: VStr(Label(c)) in items <==> c in cs)
      && (InTableOrder(cs) ==> forall i, j :: 0 <= i < j < |items| ==> items[i] != items[j])
  {
    var items := StrList(Labels(cs)).items;
    forall c ensures VStr(Label(c)) in items <==> c in cs {
      if VStr(Label(c)) in items {
        var i :| 0 <= i < |items| && items[i] == VStr(Label(c));
        LabelInjective(c, cs[i]);
      }
      if c in cs {
        var i :| 0 <= i < |cs| && cs[i] == c;
        assert items[i] == VStr(Label(c));
      }
    }
    if InTableOrder(cs) {
      forall i, j | 0 <= i < j < |items| ensures items[i] != items[j] {
        assert Rank(cs[i]) < Rank(cs[j]);
        LabelInjective(cs[i], cs[j]);
      }
    }
  }

  /** `transform_figure_data` with its dictionary result. */
  function TransformFigureData(raw: Dict): (d: Dict)
    requires WellTyped(raw)
    ensures d == map[] <==> raw == map[]
    ensures raw != map[] ==> d.Keys == FigureKeys
    ensures raw != map[] ==> d == FigureDict(TransformFigure(raw).value)
  {
    match TransformFigure(raw)
    case None => map[]
    case Some(f) => FigureDict(f)
  }

  /** The entries of the returned dictionary, read against the input: the
      dates read back to what `parse_date` made of the raw text, `age` is
      the difference of their years exactly when both carry one, the period
      label is that of the two dates, and `categories` names, once each,
      the categories the cleaned summary mentions. */
  lemma TransformFigureDataEntries(raw: Dict)
    requires WellTyped(raw) && raw != map[]
    ensures var d := TransformFigureData(raw);
      var birth := ParseDate(TextArg(raw, "birth_date"));
      var death := ParseDate(TextArg(raw, "death_date"));
      && DateOfValue(d["birth_date"]) == birth
      && DateOfValue(d["death_date"]) == death
      && (d["age"].VInt? <==> birth.Some? && death.Some? && birth.value.HasYear() && death.value.HasYear())
      && (d["age"].VInt? ==> birth.value.year + d["age"].i == death.value.year)
      && (!d["age"].VInt? ==> d["age"] == VNone)
      && d["historical_period"] == VStr(PeriodLabel(HistoricalPeriod(birth, death)))
      && d["summary"] == VStr(CleanText(TextArg(raw, "summary")))
  {
    var f := TransformFigure(raw).value;
    FigureDictEntries(f);
    FigureDictDerived(f);
    DateValueRoundTrip(f.birthDate);
    DateValueRoundTrip(f.deathDate);
  }

  /** Each cleaned text entry of the returned dictionary is `clean_text` of
      the raw value under the same key. */
  lemma TransformFigureDataText(raw: Dict)
    requires WellTyped(raw) && raw != map[]
    ensures var d := TransformFigureData(raw);
      && d["name"] == VStr(CleanText(TextArg(raw, "name")))
      && d["summary"] == VStr(CleanText(TextArg(raw, "summary")))
      && d["description"] == VStr(CleanText(TextArg(raw, "description")))
      && d["birth_place"] == VStr(CleanText(TextArg(raw, "birth_place")))
      && d["death_place"] == VStr(CleanText(TextArg(raw, "death_place")))
      && d["occupation"] == VStr(CleanText(TextArg(raw, "occupation")))
      && d["nationality"] == VStr(CleanText(TextArg(raw, "nationality")))
  {
    var f := TransformFigure(raw).value;
    FigureDictEntries(f);
  }

  /** The `categories` entry lists, once each, the labels of the categories
      whose keywords the cleaned summary mentions. */
  lemma TransformFigureDataCategories(raw: Dict)
    requires WellTyped(raw) && raw != map[]
    ensures var d := TransformFigureData(raw);
      var summary := CleanText(TextArg(raw, "summary"));
      && d["categories"].VList?
      && (forall c :: VStr(Label(c)) in d["categories"].items <==> Applies(c, summary))
      && (forall i, j :: 0 <= i < j < |d["categories"].items| ==>
            d["categories"].items[i] != d["categories"].items[j])
  {
    var f := TransformFigure(raw).value;
    FigureDictDerived(f);
    TransformCategories(raw);
    LabelsListed(f.categories);
  }

}
