/** `DataTransformer.validate_data`: required-field errors and data-quality
    warnings attached to the data under the key `validation`. */
module Validation {
  import opened Values

  /** The `validation_results` dictionary. */
  datatype Report = Report(isValid: bool, errors: seq<string>, warnings: seq<string>)

  const RequiredFields: seq<string> := ["name", "summary"]

  function MissingFieldError(field: string): string {
    "Missing required field: " + field
  }

  const ShortSummary: string := "Summary is very short"
  const NoDates: string := "No date information available"
  const NoOccupation: string := "No occupation information"

  /** The warnings in the order the checks run. */
  const WarningOrder: seq<string> := [ShortSummary, NoDates, NoOccupation]

  /** The loop over the required fields: one error per field whose value is
      missing or falsy, in field order. */
  function MissingErrors(fields: seq<string>, data: Dict): (errors: seq<string>)
    ensures |errors| <= |fields|
    ensures forall f :: f in fields && !Truthy(Get(data, f)) ==> MissingFieldError(f) in errors
    ensures forall e :: e in errors ==> exists f :: f in fields && !Truthy(Get(data, f)) && e == MissingFieldError(f)
  {
    if fields == [] then []
    else
      var rest := MissingErrors(fields[1..], data);
      if Truthy(Get(data, fields[0])) then rest else [MissingFieldError(fields[0])] + rest
  }

  /** `len(data['summary'])` is defined whenever it is evaluated. */
  predicate Measurable(data: Dict) {
    Truthy(Get(data, "summary")) ==> Sized(Get(data, "summary"))
  }

  /** The position of a warning among the checks; 3 for any other text. */
  function WarningRank(w: string): (k: nat)
    ensures k <= 3 && (k < 3 <==> w in WarningOrder)
  {
    if w == ShortSummary then 0 else if w == NoDates then 1 else if w == NoOccupation then 2 else 3
  }

  /** The required-field errors: `name` first, then `summary`. */
  function Errors(data: Dict): (errors: seq<string>)
    ensures errors ==
      (if Truthy(Get(data, "name")) then [] else [MissingFieldError("name")])
      + (if Truthy(Get(data, "summary")) then [] else [MissingFieldError("summary")])
  {
    var fs := RequiredFields;
    assert fs[0] == "name" && fs[1..][0] == "summary" && fs[1..][1..] == [];
    assert MissingErrors(fs[1..][1..], data) == [];
    assert MissingErrors(fs[1..], data) ==
      (if Truthy(Get(data, "summary")) then [] else [MissingFieldError("summary")]);
    MissingErrors(fs, data)
  }

  /** The data-quality warnings, each raised exactly when its condition
      holds, in the order the checks run. */
  function Warnings(data: Dict): (ws: seq<string>)
    requires Measurable(data)
    ensures ShortSummary in ws <==>
      Truthy(Get(data, "summary")) && Len(Get(data, "summary")) < 50
    ensures NoDates in ws <==>
      !Truthy(Get(data, "birth_date")) && !Truthy(Get(data, "death_date"))
    ensures NoOccupation in ws <==> !Truthy(Get(data, "occupation"))
    ensures forall w :: w in ws ==> w in WarningOrder
    ensures forall i, j :: 0 <= i < j < |ws| ==> WarningRank(ws[i]) < WarningRank(ws[j])
  {
    var summary := Get(data, "summary");
    var w1 := if Truthy(summary) && Len(summary) < 50 then [ShortSummary] else [];
    var w2 := if !Truthy(Get(data, "birth_date")) && !Truthy(Get(data, "death_date")) then [NoDates] else [];
    var w3 := if !Truthy(Get(data, "occupation")) then [NoOccupation] else [];
    w1 + w2 + w3
  }

  /** The report `validate_data` builds for non-empty data. */
  function Validate(data: Dict): (v: Report)
    requires Measurable(data)
    ensures v.isValid <==> Truthy(Get(data, "name")) && Truthy(Get(data, "summary"))
    ensures v.isValid <==> v.errors == []
    ensures v.errors == Errors(data) && v.warnings == Warnings(data)
  {
    var errors := Errors(data);
    Report(errors == [], errors, Warnings(data))
  }

  /** The report as the dictionary stored under `validation`. */
  function ReportValue(v: Report): (r: Value)
    ensures r.VDict? && r.entries.Keys == {"is_valid", "errors", "warnings"}
    ensures r.entries["is_valid"] == VBool(v.isValid)
    ensures r.entries["errors"] == StrList(v.errors)
    ensures r.entries["warnings"] == StrList(v.warnings)
  {
    VDict(map["is_valid" := VBool(v.isValid), "errors" := StrList(v.errors),
              "warnings" := StrList(v.warnings)])
  }

  /** The strings of a list of string values. */
  function StringsOf(v: Value): Option<seq<string>> {
    if v.VList? && forall i :: 0 <= i < |v.items| ==> v.items[i].VStr? then
      Some(seq(|v.items|, i requires 0 <= i < |v.items| && v.items[i].VStr? => v.items[i].s))
    else None
  }

  /** Reads a `validation` dictionary back into a report. */
  function ReportOfValue(v: Value): Option<Report> {
    if v.VDict? && "is_valid" in v.entries && v.entries["is_valid"].VBool?
       && "errors" in v.entries && "warnings" in v.entries then
      match (StringsOf(v.entries["errors"]), StringsOf(v.entries["warnings"]))
      case (Some(errors), Some(warnings)) => Some(Report(v.entries["is_valid"].b, errors, warnings))
      case _ => None
    else None
  }

  /** The stored report loses nothing: validity, errors and warnings read
      back, each in its own entry. */
  lemma ReportValueRoundTrip(v: Report)
    ensures ReportOfValue(ReportValue(v)) == Some(v)
  {
    var r := ReportValue(v);
    assert StringsOf(r.entries["errors"]).value == v.errors;
    assert StringsOf(r.entries["warnings"]).value == v.warnings;
  }

  /** `validate_data(data)`: an error dictionary for empty data; otherwise
      the data with the report added under `validation`. */
  function ValidateData(data: Dict): (r: Dict)
    requires Measurable(data)
    ensures data == map[] ==> r == map["error" := VStr("No data provided")]
    ensures data != map[] ==> r.Keys == data.Keys + {"validation"}
    ensures data != map[] ==> forall k :: k in data && k != "validation" ==> r[k] == data[k]
    ensures data != map[] ==> r["validation"] == ReportValue(Validate(data))
  {
    if data == map[] then map["error" := VStr("No data provided")]
    else data["validation" := ReportValue(Validate(data))]
  }

  /** The `validation` entry of validated data reads back to the report:
      validity iff both required fields are truthy, the required-field
      errors and the quality warnings. */
  lemma ValidateDataReport(data: Dict)
    requires Measurable(data) && data != map[]
    ensures ReportOfValue(ValidateData(data)["validation"])
            == Some(Report(Truthy(Get(data, "name")) && Truthy(Get(data, "summary")), Errors(data), Warnings(data)))
  {
    ReportValueRoundTrip(Validate(data));
  }

  /** Validity depends on `name` and `summary` only: warnings never make
      data invalid. */
  lemma ValidityIgnoresWarnings(d1: Dict, d2: Dict)
    requires Measurable(d1) && Measurable(d2)
    requires Truthy(Get(d1, "name")) == Truthy(Get(d2, "name"))
    requires Truthy(Get(d1, "summary")) == Truthy(Get(d2, "summary"))
    ensures Validate(d1).isValid == Validate(d2).isValid
    ensures Validate(d1).errors == Validate(d2).errors
  {
  }

  /** Validating twice gives the same result as validating once: the report
      looks at none of the keys that validation adds. */
  lemma ValidateDataIdempotent(data: Dict)
    requires Measurable(data) && data != map[]
    ensures Measurable(ValidateData(data))
    ensures ValidateData(ValidateData(data)) == ValidateData(data)
  {
    var r := ValidateData(data);
    SameReport(data);
    assert r["validation" := ReportValue(Validate(r))] == r;
  }

  /** Validated data gives the same report as the data it came from. */
  lemma SameReport(data: Dict)
    requires Measurable(data) && data != map[]
    ensures Measurable(ValidateData(data))
    ensures Validate(ValidateData(data)) == Validate(data)
  {
    KeptByValidation(data, "name");
    KeptByValidation(data, "summary");
    KeptByValidation(data, "birth_date");
    KeptByValidation(data, "death_date");
    KeptByValidation(data, "occupation");
  }

  /** Validation keeps every other key's value. */
  lemma KeptByValidation(data: Dict, k: string)
    requires Measurable(data) && data != map[] && k != "validation"
    ensures Get(ValidateData(data), k) == Get(data, k)
  {
  }
}
