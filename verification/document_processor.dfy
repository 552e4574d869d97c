/** The backend's `DocumentProcessor`: the schema validator for extracted
    fields, the field formatter, the processing summary and the intake check
    on the staged upload. */
module DocumentProcessor {
  import opened Wrappers
  import opened JsString

  /** An `extractedData` object: field name to string value. A key that is
      not in the map reads as `undefined`. */
  type Fields = map<string, string>

  const PassportRequired: seq<string> := ["passportNumber", "fullName", "nationality"]
  const PassportRecommended: seq<string> := ["dateOfBirth", "expiryDate", "issueDate"]
  const LicenseRequired: seq<string> := ["licenseNumber", "fullName"]
  const LicenseRecommended: seq<string> := ["dateOfBirth", "expiryDate", "issueDate", "address"]

  /** The schema table: required fields per document type. A type with no
      schema requires nothing. */
  function RequiredFields(documentType: string): (r: seq<string>)
    ensures r != [] <==> documentType == "passport" || documentType == "driving_license"
    ensures forall f :: f in r ==> f !in RecommendedFields(documentType)
  {
    if documentType == "passport" then PassportRequired
    else if documentType == "driving_license" then LicenseRequired
    else []
  }

  /** The schema table: recommended fields per document type. */
  function RecommendedFields(documentType: string): (r: seq<string>)
    ensures r != [] <==> documentType == "passport" || documentType == "driving_license"
    ensures Distinct(r)
  {
    if documentType == "passport" then PassportRecommended
    else if documentType == "driving_license" then LicenseRecommended
    else []
  }

  /** `!data[field] || data[field].trim() === ''`: absent, empty or only
      whitespace. */
  predicate IsMissing(data: Fields, field: string) {
    field !in data || IsBlankText(data[field])
  }

  /** Missing reads as the source's test: absent, falsy (the empty string)
      or empty once trimmed. */
  lemma IsMissingAsTrimTest(data: Fields, field: string)
    ensures IsMissing(data, field) <==> field !in data || data[field] == "" || Trim(data[field]) == ""
  {
  }

  function WarningText(field: string): string {
    field + " is recommended but missing"
  }

  datatype ValidationResult = ValidationResult(isValid: bool, missingFields: seq<string>, warnings: seq<string>)

  /** Reference definition: the members of `fields` that are missing from
      `data`, in the order `fields` lists them. */
  function MissingAmong(fields: seq<string>, data: Fields): (r: seq<string>)
    ensures IsSublist(r, fields)
  {
    if fields == [] then []
    else
      var rest := MissingAmong(fields[1..], data);
      if IsMissing(data, fields[0]) then
        assert ([fields[0]] + rest)[1..] == rest;
        [fields[0]] + rest
      else
        SublistOfTail(rest, fields);
        rest
  }

  /** The filter keeps exactly the missing members. */
  lemma {:induction false} MissingAmongMembers(fields: seq<string>, data: Fields)
    ensures forall f :: f in MissingAmong(fields, data) <==> f in fields && IsMissing(data, f)
  {
    if fields != [] {
      MissingAmongMembers(fields[1..], data);
      assert fields == [fields[0]] + fields[1..];
    }
  }

  function WarningsFor(missing: seq<string>): seq<string> {
    seq(|missing|, i requires 0 <= i < |missing| => WarningText(missing[i]))
  }

  lemma WarningsForCons(field: string, rest: seq<string>)
    ensures WarningsFor([field] + rest) == [WarningText(field)] + WarningsFor(rest)
  {
  }

  /** The reference filter, one field at a time. */
  lemma MissingAmongStep(fields: seq<string>, data: Fields)
    requires fields != []
    ensures IsMissing(data, fields[0]) ==> MissingAmong(fields, data) == [fields[0]] + MissingAmong(fields[1..], data)
    ensures !IsMissing(data, fields[0]) ==> MissingAmong(fields, data) == MissingAmong(fields[1..], data)
  {
  }

  /** One `requiredFields.forEach` pass: each missing field is appended to
      `missingFields` and clears `isValid`. */
  function CheckRequired(fields: seq<string>, data: Fields, acc: ValidationResult): (r: ValidationResult)
    ensures r.missingFields == acc.missingFields + MissingAmong(fields, data)
    ensures r.isValid == (acc.isValid && MissingAmong(fields, data) == [])
    ensures r.warnings == acc.warnings
  {
    if fields == [] then acc
    else
      MissingAmongStep(fields, data);
      if IsMissing(data, fields[0]) then
        var next := acc.(missingFields := acc.missingFields + [fields[0]], isValid := false);
        assert acc.missingFields + [fields[0]] + MissingAmong(fields[1..], data)
          == acc.missingFields + MissingAmong(fields, data);
        CheckRequired(fields[1..], data, next)
      else
        CheckRequired(fields[1..], data, acc)
  }

  /** One `recommendedFields.forEach` pass: each missing field adds one
      warning and nothing else changes. */
  function CheckRecommended(fields: seq<string>, data: Fields, acc: ValidationResult): (r: ValidationResult)
    ensures r.warnings == acc.warnings + WarningsFor(MissingAmong(fields, data))
    ensures r.isValid == acc.isValid && r.missingFields == acc.missingFields
  {
    if fields == [] then acc
    else
      MissingAmongStep(fields, data);
      if IsMissing(data, fields[0]) then
        var next := acc.(warnings := acc.warnings + [WarningText(fields[0])]);
        WarningsForCons(fields[0], MissingAmong(fields[1..], data));
        assert acc.warnings + [WarningText(fields[0])] + WarningsFor(MissingAmong(fields[1..], data))
          == acc.warnings + WarningsFor(MissingAmong(fields, data));
        CheckRecommended(fields[1..], data, next)
      else
        CheckRecommended(fields[1..], data, acc)
  }

  /** `validateExtractedData`: the passport block and the driving-licence
      block exclude each other, so at most one runs; it makes its required
      pass, then its recommended pass, over the schema table's lists. */
  function ValidateExtractedData(documentType: string, data: Fields): (r: ValidationResult)
    ensures r.isValid <==> r.missingFields == []
    ensures IsSublist(r.missingFields, RequiredFields(documentType))
    ensures forall f :: f in r.missingFields <==> f in RequiredFields(documentType) && IsMissing(data, f)
    ensures r.warnings == WarningsFor(MissingAmong(RecommendedFields(documentType), data))
    ensures documentType != "passport" && documentType != "driving_license" ==> r == ValidationResult(true, [], [])
  {
    MissingAmongMembers(RequiredFields(documentType), data);
    var start := ValidationResult(true, [], []);
    if documentType == "passport" || documentType == "driving_license" then
      var required := CheckRequired(RequiredFields(documentType), data, start);
      assert required.missingFields == MissingAmong(RequiredFields(documentType), data);
      CheckRecommended(RecommendedFields(documentType), data, required)
    else start
  }

  lemma RequiredFieldsDistinct(documentType: string)
    ensures Distinct(RequiredFields(documentType))
  {
  }

  /** `missingFields` is THE in-order sublist of the schema's required fields
      that are missing: any other in-order sublist with the same members is
      equal to it. */
  lemma MissingFieldsAreSchemaOrdered(documentType: string, data: Fields, x: seq<string>)
    requires IsSublist(x, RequiredFields(documentType))
    requires forall f :: f in x <==> f in RequiredFields(documentType) && IsMissing(data, f)
    ensures x == ValidateExtractedData(documentType, data).missingFields
  {
    var r := ValidateExtractedData(documentType, data);
    RequiredFieldsDistinct(documentType);
    SublistDeterminedByMembers(x, r.missingFields, RequiredFields(documentType));
  }

  /** Validity and the missing list depend only on the required fields:
      two records that agree on which required fields are missing validate
      alike, whatever their recommended or extra fields hold. */
  lemma ValidityIgnoresNonRequiredFields(documentType: string, d1: Fields, d2: Fields)
    requires forall f :: f in RequiredFields(documentType) ==> (IsMissing(d1, f) <==> IsMissing(d2, f))
    ensures ValidateExtractedData(documentType, d1).isValid == ValidateExtractedData(documentType, d2).isValid
    ensures ValidateExtractedData(documentType, d1).missingFields == ValidateExtractedData(documentType, d2).missingFields
  {
    var r1 := ValidateExtractedData(documentType, d1);
    MissingFieldsAreSchemaOrdered(documentType, d2, r1.missingFields);
  }

  /** The reference filter only looks at whether each listed field is
      missing. */
  lemma {:induction false} MissingAmongCongruent(fields: seq<string>, d1: Fields, d2: Fields)
    requires forall f :: f in fields ==> (IsMissing(d1, f) <==> IsMissing(d2, f))
    ensures MissingAmong(fields, d1) == MissingAmong(fields, d2)
    decreases |fields|
  {
    if fields != [] {
      assert fields[0] in fields;
      forall f | f in fields[1..] ensures IsMissing(d1, f) <==> IsMissing(d2, f) {
        assert f in fields;
      }
      MissingAmongCongruent(fields[1..], d1, d2);
    }
  }

  /** The whole validation result depends only on which schema fields are
      missing. */
  lemma ValidationDeterminedByMissingness(documentType: string, d1: Fields, d2: Fields)
    requires forall f :: f in RequiredFields(documentType) ==> (IsMissing(d1, f) <==> IsMissing(d2, f))
    requires forall f :: f in RecommendedFields(documentType) ==> (IsMissing(d1, f) <==> IsMissing(d2, f))
    ensures ValidateExtractedData(documentType, d1) == ValidateExtractedData(documentType, d2)
  {
    ValidityIgnoresNonRequiredFields(documentType, d1, d2);
    MissingAmongCongruent(RecommendedFields(documentType), d1, d2);
  }

  lemma WarningTextInjective(a: string, b: string)
    requires WarningText(a) == WarningText(b)
    ensures a == b
  {
    assert |a| == |b|;
    assert a == WarningText(a)[..|a|];
    assert b == WarningText(b)[..|b|];
  }

  /** One warning per listed field, and a warning names a listed field. */
  lemma WarningsForMembers(missing: seq<string>, f: string)
    ensures |WarningsFor(missing)| == |missing|
    ensures WarningText(f) in WarningsFor(missing) <==> f in missing
  {
    var w := WarningsFor(missing);
    if WarningText(f) in w {
      var i :| 0 <= i < |w| && w[i] == WarningText(f);
      WarningTextInjective(missing[i], f);
    }
    if f in missing {
      var i :| 0 <= i < |missing| && missing[i] == f;
      assert w[i] == WarningText(f);
    }
  }

  /** Each missing recommended field gives exactly one warning, in schema
      order, and a warning names a recommended field that is missing. */
  lemma WarningsListMissingRecommended(documentType: string, data: Fields)
    ensures var r := ValidateExtractedData(documentType, data);
      && |r.warnings| == |MissingAmong(RecommendedFields(documentType), data)|
      && forall f :: WarningText(f) in r.warnings <==> f in RecommendedFields(documentType) && IsMissing(data, f)
  {
    var m := MissingAmong(RecommendedFields(documentType), data);
    MissingAmongMembers(RecommendedFields(documentType), data);
    forall f ensures WarningText(f) in WarningsFor(m) <==> f in m {
      WarningsForMembers(m, f);
    }
    WarningsForMembers(m, "");
  }

  const DateFields: seq<string> := ["dateOfBirth", "issueDate", "expiryDate"]

  /** The keys `formatExtractedData` may rewrite. */
  const FormattedKeys: set<string> := {"dateOfBirth", "issueDate", "expiryDate", "fullName", "passportNumber", "licenseNumber"}

  /** Position `i` of `s` is where `\b\w` matches: a word character not
      preceded by one; `afterWord` says whether the text before `s` ends in
      a word character. */
  predicate StartsWordAt(s: string, i: nat, afterWord: bool)
    requires i < |s|
  {
    IsWordChar(s[i]) && !(if i == 0 then afterWord else IsWordChar(s[i - 1]))
  }

  /** `\b\w` matched against `s`, where `afterWord` says whether the
      character before `s` was a word character: the first character of each
      run of word characters is upper-cased. */
  function UpperWordStarts(s: string, afterWord: bool): (r: string)
    ensures |r| == |s|
    ensures forall i :: 0 <= i < |s| ==> r[i] == (if StartsWordAt(s, i, afterWord) then UpperChar(s[i]) else s[i])
  {
    if s == [] then []
    else
      var rest := UpperWordStarts(s[1..], IsWordChar(s[0]));
      var r := [if IsWordChar(s[0]) && !afterWord then UpperChar(s[0]) else s[0]] + rest;
      forall i | 0 <= i < |s|
        ensures r[i] == (if StartsWordAt(s, i, afterWord) then UpperChar(s[i]) else s[i])
      {
        if i > 0 {
          assert r[i] == rest[i - 1] && s[1..][i - 1] == s[i];
          if i > 1 {
            assert s[1..][i - 2] == s[i - 1];
          }
        }
      }
      r
  }

  /** Position `i` of the whole string is where `\b\w` matches. */
  predicate IsWordStart(s: string, i: nat)
    requires i < |s|
  {
    StartsWordAt(s, i, false)
  }

  /** `capitalizeWords`: lower-case everything, then upper-case the first
      character of every word. */
  function CapitalizeWords(s: string): (r: string)
    ensures |r| == |s|
    ensures forall i :: 0 <= i < |s| ==> r[i] == (if IsWordStart(s, i) then UpperChar(s[i]) else LowerChar(s[i]))
  {
    if s == "" then s
    else
      var lowered := ToLower(s);
      var r := UpperWordStarts(lowered, false);
      assert forall i :: 0 <= i < |s| ==> r[i] == (if IsWordStart(s, i) then UpperChar(s[i]) else LowerChar(s[i])) by {
        forall i | 0 <= i < |s|
          ensures r[i] == (if IsWordStart(s, i) then UpperChar(s[i]) else LowerChar(s[i]))
        {
          CaseMappingKeepsCharClass(s[i]);
          assert lowered[i] == LowerChar(s[i]);
          if i > 0 {
            CaseMappingKeepsCharClass(s[i - 1]);
            assert lowered[i - 1] == LowerChar(s[i - 1]);
          }
        }
      }
      r
  }

  /** Title-casing an already title-cased name changes nothing. */
  lemma CapitalizeWordsIdempotent(s: string)
    ensures CapitalizeWords(CapitalizeWords(s)) == CapitalizeWords(s)
  {
    var r := CapitalizeWords(s);
    forall i | 0 <= i < |s| ensures IsWordChar(r[i]) == IsWordChar(s[i]) {
      CaseMappingKeepsCharClass(s[i]);
    }
    forall i | 0 <= i < |s| ensures CapitalizeWords(r)[i] == r[i] {
      CaseMappingKeepsCharClass(s[i]);
      assert IsWordStart(r, i) == IsWordStart(s, i);
    }
  }

  lemma CapitalizeWordsKeepsBlankness(s: string)
    ensures IsBlankText(CapitalizeWords(s)) == IsBlankText(s)
  {
    var r := CapitalizeWords(s);
    forall i | 0 <= i < |s| ensures IsWhitespace(r[i]) == IsWhitespace(s[i]) {
      CaseMappingKeepsCharClass(s[i]);
    }
  }

  /** `capitalizeWords` on a concrete input, checked position by position. */
  lemma CapitalizeWordsAgrees(s: string, expected: string)
    requires |expected| == |s|
    requires forall i :: 0 <= i < |s| ==> expected[i] == (if IsWordStart(s, i) then UpperChar(s[i]) else LowerChar(s[i]))
    ensures CapitalizeWords(s) == expected
  {
  }

  lemma CapitalizeWordsExamples()
    ensures CapitalizeWords("john smith") == "John Smith"
    ensures CapitalizeWords("o'brien") == "O'Brien"
  {
    CapitalizeWordsAgrees("john smith", "John Smith");
    CapitalizeWordsAgrees("o'brien", "O'Brien");
  }

  /** `if (formatted[key]) formatted[key] = transform(formatted[key])`. */
  function UpdateIfTruthy(m: Fields, key: string, transform: string -> string): (r: Fields)
    ensures r.Keys == m.Keys
    ensures forall k :: k in m && k != key ==> r[k] == m[k]
    ensures key in m ==> r[key] == if m[key] != "" then transform(m[key]) else m[key]
  {
    if key in m && m[key] != "" then m[key := transform(m[key])] else m
  }

  /** Reference definition of formatting, one key at a time: an empty value
      is kept; dates go through `formatDate`, the name is title-cased, the
      document numbers are upper-cased, anything else is kept. */
  function FormattedValue(formatDate: string -> string, key: string, value: string): (r: string)
    ensures value == "" || key !in FormattedKeys ==> r == value
    ensures key !in DateFields ==> |r| == |value| && (IsBlankText(r) <==> IsBlankText(value))
  {
    if value == "" then value
    else if key in DateFields then formatDate(value)
    else if key == "fullName" then
      CapitalizeWordsKeepsBlankness(value);
      CapitalizeWords(value)
    else if key == "passportNumber" || key == "licenseNumber" then
      ToUpperKeepsBlankness(value);
      ToUpperIdempotent(value);
      ToUpper(value)
    else value
  }

  /** `formatExtractedData`: a copy of `data` with the date fields, the name
      and the two document numbers rewritten in turn. `formatDate` stands for
      the locale-dependent date formatter. */
  function FormatExtractedData(formatDate: string -> string, documentType: string, data: Fields): (r: Fields)
    ensures r.Keys == data.Keys
    ensures forall k :: k in data ==> r[k] == FormattedValue(formatDate, k, data[k])
    ensures forall k :: k in data && (k !in FormattedKeys || data[k] == "") ==> r[k] == data[k]
  {
    var d1 := UpdateIfTruthy(data, "dateOfBirth", formatDate);
    var d2 := UpdateIfTruthy(d1, "issueDate", formatDate);
    var d3 := UpdateIfTruthy(d2, "expiryDate", formatDate);
    var d4 := UpdateIfTruthy(d3, "fullName", CapitalizeWords);
    var d5 := UpdateIfTruthy(d4, "passportNumber", ToUpper);
    var r := UpdateIfTruthy(d5, "licenseNumber", ToUpper);
    assert forall k :: k in data ==> r[k] == FormattedValue(formatDate, k, data[k]) by {
      forall k | k in data ensures r[k] == FormattedValue(formatDate, k, data[k]) {
        FormatStepsAt(formatDate, data, k);
      }
    }
    r
  }

  /** The six updates of `formatExtractedData`, followed for one key. */
  lemma FormatStepsAt(formatDate: string -> string, data: Fields, k: string)
    requires k in data
    ensures
      var d1 := UpdateIfTruthy(data, "dateOfBirth", formatDate);
      var d2 := UpdateIfTruthy(d1, "issueDate", formatDate);
      var d3 := UpdateIfTruthy(d2, "expiryDate", formatDate);
      var d4 := UpdateIfTruthy(d3, "fullName", CapitalizeWords);
      var d5 := UpdateIfTruthy(d4, "passportNumber", ToUpper);
      UpdateIfTruthy(d5, "licenseNumber", ToUpper)[k] == FormattedValue(formatDate, k, data[k])
  {
    var d1 := UpdateIfTruthy(data, "dateOfBirth", formatDate);
    var d2 := UpdateIfTruthy(d1, "issueDate", formatDate);
    var d3 := UpdateIfTruthy(d2, "expiryDate", formatDate);
    var d4 := UpdateIfTruthy(d3, "fullName", CapitalizeWords);
    var d5 := UpdateIfTruthy(d4, "passportNumber", ToUpper);
    var r := UpdateIfTruthy(d5, "licenseNumber", ToUpper);
    var v := data[k];
    if k == "dateOfBirth" {
      assert d1[k] == FormattedValue(formatDate, k, v);
      assert r[k] == d5[k] == d4[k] == d3[k] == d2[k] == d1[k];
    } else if k == "issueDate" {
      assert d1[k] == v;
      assert d2[k] == FormattedValue(formatDate, k, v);
      assert r[k] == d5[k] == d4[k] == d3[k] == d2[k];
    } else if k == "expiryDate" {
      assert d2[k] == d1[k] == v;
      assert d3[k] == FormattedValue(formatDate, k, v);
      assert r[k] == d5[k] == d4[k] == d3[k];
    } else if k == "fullName" {
      assert d3[k] == d2[k] == d1[k] == v;
      assert d4[k] == FormattedValue(formatDate, k, v);
      assert r[k] == d5[k] == d4[k];
    } else if k == "passportNumber" {
      assert d4[k] == d3[k] == d2[k] == d1[k] == v;
      assert d5[k] == FormattedValue(formatDate, k, v);
      assert r[k] == d5[k];
    } else if k == "licenseNumber" {
      assert d5[k] == d4[k] == d3[k] == d2[k] == d1[k] == v;
      assert r[k] == FormattedValue(formatDate, k, v);
    } else {
      assert r[k] == d5[k] == d4[k] == d3[k] == d2[k] == d1[k] == v;
    }
  }

  /** Formatting a second time changes nothing, provided the date formatter
      leaves its own output as it is. */
  lemma FormatIdempotent(formatDate: string -> string, documentType: string, data: Fields)
    requires forall s :: formatDate(formatDate(s)) == formatDate(s)
    ensures FormatExtractedData(formatDate, documentType, FormatExtractedData(formatDate, documentType, data))
         == FormatExtractedData(formatDate, documentType, data)
  {
    var once := FormatExtractedData(formatDate, documentType, data);
    var twice := FormatExtractedData(formatDate, documentType, once);
    assert twice.Keys == once.Keys == data.Keys;
    forall k | k in once ensures twice[k] == once[k] {
      assert once[k] == FormattedValue(formatDate, k, data[k]);
      assert twice[k] == FormattedValue(formatDate, k, once[k]);
      FormattedValueIdempotent(formatDate, k, data[k]);
    }
  }

  /** Each key's rewrite is idempotent when the date formatter is. */
  lemma FormattedValueIdempotent(formatDate: string -> string, key: string, value: string)
    requires forall s :: formatDate(formatDate(s)) == formatDate(s)
    ensures FormattedValue(formatDate, key, FormattedValue(formatDate, key, value)) == FormattedValue(formatDate, key, value)
  {
    if value != "" && key !in DateFields {
      if key == "fullName" {
        CapitalizeWordsIdempotent(value);
      } else if key == "passportNumber" || key == "licenseNumber" {
        ToUpperIdempotent(value);
      }
    }
  }

  /** Formatting never changes whether a required field is missing: the
      required fields are only ever upper-cased or title-cased, never dated. */
  lemma FormatKeepsRequiredMissingness(formatDate: string -> string, documentType: string, data: Fields, f: string)
    requires f in RequiredFields(documentType)
    ensures IsMissing(FormatExtractedData(formatDate, documentType, data), f) == IsMissing(data, f)
  {
    assert f !in DateFields;
    FormatValueKeepsMissingness(formatDate, documentType, data, f);
  }

  /** With a date formatter that keeps blank text blank and other text
      non-blank, formatting never changes whether any field is missing. */
  lemma FormatKeepsMissingness(formatDate: string -> string, documentType: string, data: Fields, f: string)
    requires forall s :: s != "" ==> (IsBlankText(formatDate(s)) <==> IsBlankText(s))
    ensures IsMissing(FormatExtractedData(formatDate, documentType, data), f) == IsMissing(data, f)
  {
    FormatValueKeepsMissingness(formatDate, documentType, data, f);
  }

  lemma FormatValueKeepsMissingness(formatDate: string -> string, documentType: string, data: Fields, f: string)
    requires f in DateFields ==> forall s :: s != "" ==> (IsBlankText(formatDate(s)) <==> IsBlankText(s))
    ensures IsMissing(FormatExtractedData(formatDate, documentType, data), f) == IsMissing(data, f)
  {
    var r := FormatExtractedData(formatDate, documentType, data);
    if f in data {
      var v := data[f];
      assert r[f] == FormattedValue(formatDate, f, v);
      if v != "" {
        if f in DateFields {
          assert IsBlankText(formatDate(v)) == IsBlankText(v);
        } else if f == "fullName" {
          CapitalizeWordsKeepsBlankness(v);
        } else if f == "passportNumber" || f == "licenseNumber" {
          ToUpperKeepsBlankness(v);
        }
      }
    }
  }

  datatype ProcessingSummary = ProcessingSummary(
    documentType: string,
    totalFieldsExtracted: nat,
    validationStatus: string,
    missingRequiredFields: nat,
    warnings: nat,
    processingTimestamp: string)

  /** `generateProcessingSummary`: counts only. `now` stands for the clock
      reading rendered by `toISOString`. */
  function GenerateProcessingSummary(documentType: string, data: Fields, validation: ValidationResult, now: string): (r: ProcessingSummary)
    ensures r.documentType == documentType && r.processingTimestamp == now
    ensures r.totalFieldsExtracted == |data.Keys|
    ensures r.validationStatus in {"passed", "failed"}
    ensures r.validationStatus == "passed" <==> validation.isValid
    ensures r.missingRequiredFields == |validation.missingFields| && r.warnings == |validation.warnings|
  {
    ProcessingSummary(
      documentType,
      |data|,
      if validation.isValid then "passed" else "failed",
      |validation.missingFields|,
      |validation.warnings|,
      now)
  }

  /** What `fs.existsSync` and `fs.statSync` report about the staged file. */
  datatype FileStat = FileStat(present: bool, isFile: bool, size: nat)

  /** 10 MiB. */
  const MaxFileSize: nat := 10 * 1024 * 1024

  const IntakeErrorPrefix: string := "File validation failed: "

  /** `validateFile`: existence, then regular file, then non-empty, then the
      size ceiling; the first failing check's reason is re-thrown with the
      common prefix. */
  function ValidateFile(stat: FileStat): (r: Outcome<string>)
    ensures r.Pass? <==> stat.present && stat.isFile && 0 < stat.size <= MaxFileSize
    ensures r.Fail? ==> StartsWith(r.error, IntakeErrorPrefix) && |r.error| > |IntakeErrorPrefix|
    ensures !stat.present ==> r == Fail(IntakeErrorPrefix + "File does not exist")
    ensures stat.present && !stat.isFile ==> r == Fail(IntakeErrorPrefix + "Path is not a file")
    ensures stat.present && stat.isFile && stat.size == 0 ==> r == Fail(IntakeErrorPrefix + "File is empty")
    ensures stat.present && stat.isFile && stat.size > MaxFileSize ==> r == Fail(IntakeErrorPrefix + "File is too large")
  {
    var check: Outcome<string> :=
      if !stat.present then Fail("File does not exist")
      else if !stat.isFile then Fail("Path is not a file")
      else if stat.size == 0 then Fail("File is empty")
      else if stat.size > 10 * 1024 * 1024 then Fail("File is too large")
      else Pass;
    match check
    case Pass => Pass
    case Fail(reason) => Fail(IntakeErrorPrefix + reason)
  }

  /** The size ceiling is inclusive: exactly 10 MiB is accepted, one byte
      more is not. */
  lemma IntakeSizeBoundary()
    ensures ValidateFile(FileStat(true, true, 10485760)) == Pass
    ensures ValidateFile(FileStat(true, true, 10485761)) == Fail(IntakeErrorPrefix + "File is too large")
  {
  }
}
