/** The display logic of the result view (`DocumentResult`): field labels
    derived from camelCase keys, the document-type and confidence badges,
    and the filter that hides empty extracted values. */
module DocumentResultView {
  import opened Wrappers
  import opened JsString
  import opened DocumentProcessor
  import GeminiService

  /** The only whitespace in `s`, if any, is the plain space. */
  predicate WhitespaceIsSpace(s: string) {
    forall i :: 0 <= i < |s| && IsWhitespace(s[i]) ==> s[i] == ' '
  }

  /** `.replace(/([A-Z])/g, ' $1')`: a space in front of every ASCII capital. */
  function SpaceBeforeCapitals(s: string): (r: string)
    ensures |r| >= |s|
  {
    if s == [] then []
    else
      (if IsAsciiUpper(s[0]) then [' ', s[0]] else [s[0]]) + SpaceBeforeCapitals(s[1..])
  }

  /** One character: a capital gains a space in front, anything else is kept. */
  lemma SpaceBeforeCapital(c: char)
    ensures SpaceBeforeCapitals([c]) == if IsAsciiUpper(c) then [' ', c] else [c]
  {
    assert [c][1..] == [];
  }

  /** The only whitespace the replacement brings in is the space. */
  lemma {:induction false} SpaceBeforeCapitalsKeepsSpacing(s: string)
    requires WhitespaceIsSpace(s)
    ensures WhitespaceIsSpace(SpaceBeforeCapitals(s))
    decreases |s|
  {
    if s != [] {
      var head := if IsAsciiUpper(s[0]) then [' ', s[0]] else [s[0]];
      var rest := SpaceBeforeCapitals(s[1..]);
      var r := head + rest;
      assert SpaceBeforeCapitals(s) == r;
      assert WhitespaceIsSpace(s[1..]) by {
        forall i | 0 <= i < |s[1..]| && IsWhitespace(s[1..][i]) ensures s[1..][i] == ' ' {
          assert s[1..][i] == s[i + 1];
        }
      }
      SpaceBeforeCapitalsKeepsSpacing(s[1..]);
      forall i | 0 <= i < |r| && IsWhitespace(r[i]) ensures r[i] == ' ' {
        if i >= |head| {
          assert r[i] == rest[i - |head|];
        }
      }
    }
  }

  /** `.replace(/^./, str => str.toUpperCase())`: the first character is
      upper-cased unless it is a line terminator, which `.` does not match. */
  function UpperFirst(s: string): (r: string)
    ensures |r| == |s|
    ensures s != [] ==> r[1..] == s[1..]
    ensures s != [] && !IsLineTerminator(s[0]) ==> r[0] == UpperChar(s[0])
    ensures s != [] && IsLineTerminator(s[0]) ==> r == s
  {
    if s != [] && !IsLineTerminator(s[0]) then [UpperChar(s[0])] + s[1..] else s
  }

  /** `formatFieldName`: camelCase key to a label, "passportNumber" to
      "Passport Number". */
  function FormatFieldName(fieldName: string): (r: string)
    ensures r == [] <==> IsBlankText(fieldName)
    ensures NoOuterWhitespace(r)
  {
    SpaceBeforeCapitalsKeepsBlankness(fieldName);
    UpperFirstKeepsBlankness(SpaceBeforeCapitals(fieldName));
    Trim(UpperFirst(SpaceBeforeCapitals(fieldName)))
  }

  /** A string is all whitespace iff both of its parts are. */
  lemma BlankTextAppend(a: string, b: string)
    ensures IsBlankText(a + b) <==> IsBlankText(a) && IsBlankText(b)
  {
    if IsBlankText(a) && IsBlankText(b) {
      forall i | 0 <= i < |a + b| ensures IsWhitespace((a + b)[i]) {
        if i >= |a| {
          assert (a + b)[i] == b[i - |a|];
        }
      }
    }
    if IsBlankText(a + b) {
      forall i | 0 <= i < |a| ensures IsWhitespace(a[i]) {
        assert (a + b)[i] == a[i];
      }
      forall i | 0 <= i < |b| ensures IsWhitespace(b[i]) {
        assert (a + b)[|a| + i] == b[i];
      }
    }
  }

  /** Inserting spaces before capitals neither creates nor removes a
      non-whitespace character. */
  lemma {:induction false} SpaceBeforeCapitalsKeepsBlankness(s: string)
    ensures IsBlankText(SpaceBeforeCapitals(s)) <==> IsBlankText(s)
    decreases |s|
  {
    if s != [] {
      var head := if IsAsciiUpper(s[0]) then [' ', s[0]] else [s[0]];
      var rest := SpaceBeforeCapitals(s[1..]);
      assert SpaceBeforeCapitals(s) == head + rest;
      SpaceBeforeCapitalsKeepsBlankness(s[1..]);
      BlankTextAppend(head, rest);
      assert s == [s[0]] + s[1..];
      BlankTextAppend([s[0]], s[1..]);
      if IsAsciiUpper(s[0]) {
        assert !IsWhitespace(s[0]);
        assert head[1] == s[0];
      }
    }
  }

  /** Upper-casing the first character keeps a blank string blank and a
      non-blank one non-blank. */
  lemma UpperFirstKeepsBlankness(u: string)
    ensures IsBlankText(UpperFirst(u)) <==> IsBlankText(u)
  {
    if u != [] {
      var r := UpperFirst(u);
      CaseMappingKeepsCharClass(u[0]);
      assert IsWhitespace(r[0]) <==> IsWhitespace(u[0]);
      forall i | 1 <= i < |u| ensures r[i] == u[i] {
        assert r[1..][i - 1] == u[1..][i - 1];
      }
    }
  }

  /** Reference definition: `s` with its space characters deleted. */
  function RemoveSpaces(s: string): (r: string)
    ensures ' ' !in r
    ensures |r| <= |s|
  {
    if s == [] then [] else (if s[0] == ' ' then [] else [s[0]]) + RemoveSpaces(s[1..])
  }

  lemma {:induction false} RemoveSpacesAppend(a: string, b: string)
    ensures RemoveSpaces(a + b) == RemoveSpaces(a) + RemoveSpaces(b)
    decreases |a|
  {
    if a != [] {
      assert (a + b)[1..] == a[1..] + b;
      RemoveSpacesAppend(a[1..], b);
    } else {
      assert a + b == b;
    }
  }

  /** Removing the inserted spaces gives back a key that had none. */
  lemma {:induction false} RemoveInsertedSpaces(s: string)
    requires ' ' !in s
    ensures RemoveSpaces(SpaceBeforeCapitals(s)) == s
    decreases |s|
  {
    if s != [] {
      var head := if IsAsciiUpper(s[0]) then [' ', s[0]] else [s[0]];
      var rest := SpaceBeforeCapitals(s[1..]);
      assert SpaceBeforeCapitals(s) == head + rest;
      assert s[0] in s;
      assert ' ' !in s[1..];
      RemoveInsertedSpaces(s[1..]);
      RemoveSpacesAppend(head, rest);
      RemoveSpacesOfSpacedChar(s[0]);
      assert s == [s[0]] + s[1..];
    }
  }

  /** The one or two characters a non-space character becomes lose their
      space again. */
  lemma RemoveSpacesOfSpacedChar(c: char)
    requires c != ' '
    ensures RemoveSpaces(if IsAsciiUpper(c) then [' ', c] else [c]) == [c]
  {
    assert RemoveSpaces([c]) == [c] + RemoveSpaces([]);
    assert [' ', c][1..] == [c];
  }

  /** Text made of nothing but spaces vanishes. */
  lemma {:induction false} RemoveSpacesOfSpaces(s: string)
    requires forall i :: 0 <= i < |s| ==> s[i] == ' '
    ensures RemoveSpaces(s) == []
    decreases |s|
  {
    if s != [] {
      RemoveSpacesOfSpaces(s[1..]);
    }
  }

  /** When the only whitespace in `u` is spaces, trimming it loses nothing
      but spaces. */
  lemma TrimLosesOnlySpaces(u: string)
    requires WhitespaceIsSpace(u)
    ensures RemoveSpaces(Trim(u)) == RemoveSpaces(u)
  {
    var front := TrimStart(u);
    TrimStartLosesOnlySpaces(u);
    SuffixKeepsSpacing(u, |u| - |front|);
    TrimEndLosesOnlySpaces(front);
    assert Trim(u) == TrimEnd(front);
  }

  lemma SuffixKeepsSpacing(u: string, k: nat)
    requires WhitespaceIsSpace(u) && k <= |u|
    ensures WhitespaceIsSpace(u[k..])
  {
    forall i | 0 <= i < |u[k..]| && IsWhitespace(u[k..][i]) ensures u[k..][i] == ' ' {
      assert u[k..][i] == u[k + i];
    }
  }

  lemma TrimStartLosesOnlySpaces(u: string)
    requires WhitespaceIsSpace(u)
    ensures RemoveSpaces(TrimStart(u)) == RemoveSpaces(u)
  {
    var front := TrimStart(u);
    var x := u[..|u| - |front|];
    assert u == x + front;
    forall i | 0 <= i < |x| ensures x[i] == ' ' {
      assert IsWhitespace(u[i]);
    }
    RemoveSpacesOfSpaces(x);
    RemoveSpacesAppend(x, front);
  }

  lemma TrimEndLosesOnlySpaces(u: string)
    requires WhitespaceIsSpace(u)
    ensures RemoveSpaces(TrimEnd(u)) == RemoveSpaces(u)
  {
    var r := TrimEnd(u);
    var y := u[|r|..];
    assert u == r + y;
    forall i | 0 <= i < |y| ensures y[i] == ' ' {
      assert IsWhitespace(u[|r| + i]);
    }
    RemoveSpacesOfSpaces(y);
    RemoveSpacesAppend(r, y);
    assert RemoveSpaces(r) + [] == RemoveSpaces(r);
  }

  /** For a key without whitespace the label is the key with its first
      letter capitalised and spaces put in, and nothing else: deleting the
      spaces gives that key back. */
  lemma FormatFieldNameOnlyAddsSpaces(key: string)
    requires forall i :: 0 <= i < |key| ==> !IsWhitespace(key[i])
    ensures RemoveSpaces(FormatFieldName(key)) == UpperFirst(key)
  {
    var sp := SpaceBeforeCapitals(key);
    var u := UpperFirst(sp);
    SpaceBeforeCapitalsKeepsSpacing(key);
    if sp != [] {
      CaseMappingKeepsCharClass(sp[0]);
    }
    assert WhitespaceIsSpace(u) by {
      forall i | 0 <= i < |u| && IsWhitespace(u[i]) ensures u[i] == ' ' {
        if i > 0 {
          assert u[i] == sp[i];
        }
      }
    }
    TrimLosesOnlySpaces(u);
    assert ' ' !in key by {
      forall c | c in key ensures c != ' ' {
        var i :| 0 <= i < |key| && key[i] == c;
        assert !IsWhitespace(key[i]);
      }
    }
    RemoveInsertedSpaces(key);
    if key != [] {
      UpperFirstThenRemoveSpaces(key);
    }
  }

  /** The step of the lemma above that follows the first character. */
  lemma UpperFirstThenRemoveSpaces(key: string)
    requires key != [] && ' ' !in key && !IsWhitespace(key[0])
    requires RemoveSpaces(SpaceBeforeCapitals(key)) == key
    ensures RemoveSpaces(UpperFirst(SpaceBeforeCapitals(key))) == UpperFirst(key)
  {
    var sp := SpaceBeforeCapitals(key);
    var head := if IsAsciiUpper(key[0]) then [' ', key[0]] else [key[0]];
    var rest := SpaceBeforeCapitals(key[1..]);
    assert sp == head + rest;
    CaseMappingKeepsCharClass(key[0]);
    assert !IsLineTerminator(key[0]);
    if IsAsciiUpper(key[0]) {
      assert UpperFirst(sp) == sp;
      assert UpperChar(key[0]) == key[0];
      assert UpperFirst(key) == key;
    } else {
      assert UpperFirst(sp) == [UpperChar(key[0])] + sp[1..];
      assert sp == [key[0]] + sp[1..];
      RemoveSpacesAppend([UpperChar(key[0])], sp[1..]);
      RemoveSpacesAppend([key[0]], sp[1..]);
      assert RemoveSpaces([key[0]]) == [key[0]] + RemoveSpaces([]);
      assert RemoveSpaces([UpperChar(key[0])]) == [UpperChar(key[0])] + RemoveSpaces([]);
      assert key == [key[0]] + key[1..];
      assert RemoveSpaces(sp[1..]) == key[1..];
    }
  }

  predicate AllAsciiLower(s: string) {
    forall i :: 0 <= i < |s| ==> IsAsciiLower(s[i])
  }

  lemma {:induction false} SpaceBeforeCapitalsAppend(a: string, b: string)
    ensures SpaceBeforeCapitals(a + b) == SpaceBeforeCapitals(a) + SpaceBeforeCapitals(b)
    decreases |a|
  {
    if a != [] {
      assert (a + b)[0] == a[0];
      assert (a + b)[1..] == a[1..] + b;
      SpaceBeforeCapitalsAppend(a[1..], b);
    } else {
      assert a + b == b;
    }
  }

  lemma {:induction false} SpaceBeforeCapitalsOfLower(s: string)
    requires AllAsciiLower(s)
    ensures SpaceBeforeCapitals(s) == s
    decreases |s|
  {
    if s != [] {
      assert IsAsciiLower(s[0]);
      assert AllAsciiLower(s[1..]) by {
        forall i | 0 <= i < |s[1..]| ensures IsAsciiLower(s[1..][i]) {
          assert s[1..][i] == s[i + 1];
        }
      }
      SpaceBeforeCapitalsOfLower(s[1..]);
      assert s == [s[0]] + s[1..];
    }
  }

  lemma CamelCaseSpacing(first: string, capital: char, rest: string)
    requires AllAsciiLower(first) && IsAsciiUpper(capital) && AllAsciiLower(rest)
    ensures SpaceBeforeCapitals(first + [capital] + rest) == first + [' ', capital] + rest
  {
    var word := [capital] + rest;
    LeadingCapitalSpacing(capital, rest);
    SpaceBeforeCapitalsOfLower(first);
    SpaceBeforeCapitalsAppend(first, word);
    CamelCaseShapes(first, capital, rest);
  }

  lemma CamelCaseShapes(first: string, capital: char, rest: string)
    ensures first + [capital] + rest == first + ([capital] + rest)
    ensures first + [' ', capital] + rest == first + ([' '] + ([capital] + rest))
  {
    assert [' ', capital] == [' '] + [capital];
  }

  /** A two-word camelCase key such as "passportNumber" becomes its two
      words, the first capitalised: "Passport Number". */
  lemma CamelCaseLabel(first: string, capital: char, rest: string)
    requires first != [] && AllAsciiLower(first) && IsAsciiUpper(capital) && AllAsciiLower(rest)
    ensures FormatFieldName(first + [capital] + rest) == [UpperChar(first[0])] + first[1..] + " " + [capital] + rest
  {
    CamelCaseSpacing(first, capital, rest);
    var spaced := first + [' ', capital] + rest;
    var title := [UpperChar(first[0])] + first[1..] + " " + [capital] + rest;
    assert IsAsciiLower(first[0]);
    assert spaced[0] == first[0] && spaced[1..] == first[1..] + " " + [capital] + rest;
    assert UpperFirst(spaced) == title;
    TitleHasNoOuterWhitespace(first, capital, rest);
    TrimOfTrimmed(title);
  }

  lemma TitleHasNoOuterWhitespace(first: string, capital: char, rest: string)
    requires first != [] && AllAsciiLower(first) && IsAsciiUpper(capital) && AllAsciiLower(rest)
    ensures var title := [UpperChar(first[0])] + first[1..] + " " + [capital] + rest;
      !IsWhitespace(title[0]) && !IsWhitespace(title[|title| - 1])
  {
    var title := [UpperChar(first[0])] + first[1..] + " " + [capital] + rest;
    assert IsAsciiLower(first[0]);
    if rest == [] {
      assert title[|title| - 1] == capital;
    } else {
      assert title[|title| - 1] == rest[|rest| - 1];
      assert IsAsciiLower(rest[|rest| - 1]);
    }
  }

  lemma PassportNumberLabel()
    ensures FormatFieldName("passportNumber") == "Passport Number"
  {
    PassportNumberParts();
    CamelCaseLabel("passport", 'N', "umber");
  }

  lemma PassportNumberParts()
    ensures AllAsciiLower("passport") && IsAsciiUpper('N') && AllAsciiLower("umber")
    ensures [UpperChar('p')] + "assport" + " " + ['N'] + "umber" == "Passport Number"
    ensures "passport" + ['N'] + "umber" == "passportNumber"
  {
  }

  lemma LeadingCapitalSpacing(capital: char, rest: string)
    requires IsAsciiUpper(capital) && AllAsciiLower(rest)
    ensures SpaceBeforeCapitals([capital] + rest) == [' '] + ([capital] + rest)
  {
    SpaceBeforeCapitalsAppend([capital], rest);
    SpaceBeforeCapitalsOfLower(rest);
    SpaceBeforeCapital(capital);
  }

  /** A key that opens with a capital gets no leading space: "Address"
      stays "Address". */
  lemma LeadingCapitalLabel(capital: char, rest: string)
    requires IsAsciiUpper(capital) && AllAsciiLower(rest)
    ensures FormatFieldName([capital] + rest) == [capital] + rest
  {
    var word := [capital] + rest;
    LeadingCapitalSpacing(capital, rest);
    LeadingSpaceKeptByUpperFirst(word);
    TrimDropsLeadingWhitespace(' ', word);
    CapitalWordIsTrimmed(capital, rest);
  }

  lemma LeadingSpaceKeptByUpperFirst(s: string)
    ensures UpperFirst([' '] + s) == [' '] + s
  {
    assert ([' '] + s)[0] == ' ';
  }

  lemma CapitalWordIsTrimmed(capital: char, rest: string)
    requires IsAsciiUpper(capital) && AllAsciiLower(rest)
    ensures Trim([capital] + rest) == [capital] + rest
  {
    var word := [capital] + rest;
    if rest != [] {
      assert word[|word| - 1] == rest[|rest| - 1];
      assert IsAsciiLower(rest[|rest| - 1]);
    }
    TrimOfTrimmed(word);
  }

  /** The badge for a document type. */
  datatype TypeInfo = TypeInfo(icon: string, labelText: string, color: string)

  /** `getDocumentTypeInfo`. */
  function DocumentTypeInfo(documentType: string): (r: TypeInfo)
    ensures documentType == "passport" ==> r == TypeInfo("\U{1F6C2}", "Passport", "blue")
    ensures documentType == "driving_license" ==> r == TypeInfo("\U{1F697}", "Driving License", "green")
    ensures documentType != "passport" && documentType != "driving_license" ==>
      r == TypeInfo("\U{2753}", "Unknown Document", "gray")
    ensures r.labelText == "Passport" <==> documentType == "passport"
    ensures r.labelText == "Driving License" <==> documentType == "driving_license"
  {
    if documentType == "passport" then TypeInfo("\U{1F6C2}", "Passport", "blue")
    else if documentType == "driving_license" then TypeInfo("\U{1F697}", "Driving License", "green")
    else TypeInfo("\U{2753}", "Unknown Document", "gray")
  }

  /** The view names exactly the types the validator has a schema for. */
  lemma KnownBadgeIffSchema(documentType: string)
    ensures DocumentTypeInfo(documentType).labelText != "Unknown Document" <==> RequiredFields(documentType) != []
  {
  }

  /** The badge for a confidence level. */
  datatype ConfidenceDisplay = ConfidenceDisplay(color: string, percentage: string)

  /** `getConfidenceInfo`. */
  function ConfidenceInfo(level: string): (r: ConfidenceDisplay)
    ensures r.percentage != "Unknown" <==> level in {"high", "medium", "low"}
    ensures level == "high" ==> r == ConfidenceDisplay("success", "90-100%")
    ensures level == "medium" ==> r == ConfidenceDisplay("warning", "70-89%")
    ensures level == "low" ==> r == ConfidenceDisplay("error", "50-69%")
    ensures level !in {"high", "medium", "low"} ==> r == ConfidenceDisplay("gray", "Unknown")
  {
    if level == "high" then ConfidenceDisplay("success", "90-100%")
    else if level == "medium" then ConfidenceDisplay("warning", "70-89%")
    else if level == "low" then ConfidenceDisplay("error", "50-69%")
    else ConfidenceDisplay("gray", "Unknown")
  }

  /** The degraded analysis of an unparsable reply shows as an unknown
      document with low confidence. */
  lemma FallbackShowsUnknownLow(rawText: string)
    ensures var d := GeminiService.FallbackDraft(rawText);
      && DocumentTypeInfo(d.documentType).labelText == "Unknown Document"
      && ConfidenceInfo(d.confidence) == ConfidenceDisplay("error", "50-69%")
  {
  }

  /** One rendered `data-field`: the key, its label and its value. */
  datatype ShownField = ShownField(key: string, labelText: string, value: string)

  /** What `renderExtractedFields` renders: the "no data" notice, or the
      list of fields (which may be empty when every value is blank). */
  datatype FieldsView = NoData | FieldList(fields: seq<ShownField>)

  /** Reference definition: the entries whose value is neither empty nor
      whitespace only, in their original order. */
  function NonBlankEntries(entries: seq<(string, string)>): (r: seq<(string, string)>)
    ensures IsSublist(r, entries)
    ensures forall e :: e in r <==> e in entries && !IsBlankText(e.1)
  {
    if entries == [] then []
    else
      var rest := NonBlankEntries(entries[1..]);
      if IsBlankText(entries[0].1) then
        SublistOfTail(rest, entries);
        rest
      else
        assert ([entries[0]] + rest)[1..] == rest;
        [entries[0]] + rest
  }

  /** `renderExtractedFields`, given `Object.entries(extractedData)`. */
  function ExtractedFieldsView(entries: seq<(string, string)>): (r: FieldsView)
    ensures r.NoData? <==> entries == []
    ensures r.FieldList? ==> |r.fields| == |NonBlankEntries(entries)|
    ensures r.FieldList? ==> forall i :: 0 <= i < |r.fields| ==>
      && (r.fields[i].key, r.fields[i].value) == NonBlankEntries(entries)[i]
      && r.fields[i].labelText == FormatFieldName(r.fields[i].key)
  {
    if entries == [] then NoData
    else
      var shown := NonBlankEntries(entries);
      FieldList(seq(|shown|, i requires 0 <= i < |shown| => ShownField(shown[i].0, FormatFieldName(shown[i].0), shown[i].1)))
  }

  /** `entries` lists the pairs of `m`, each key once, as `Object.entries`
      does (in an order the model leaves open). */
  predicate EntriesOf(entries: seq<(string, string)>, m: Fields) {
    && (forall i, j :: 0 <= i < j < |entries| ==> entries[i].0 != entries[j].0)
    && (forall i :: 0 <= i < |entries| ==> entries[i].0 in m && m[entries[i].0] == entries[i].1)
    && (forall k :: k in m ==> exists i :: 0 <= i < |entries| && entries[i].0 == k)
  }

  /** The view has a row for key `k`. */
  predicate HasRowFor(view: FieldsView, k: string) {
    view.FieldList? && exists i :: 0 <= i < |view.fields| && view.fields[i].key == k
  }

  /** A key of the record gets a row exactly when its value is not blank. */
  lemma ShownIffNotBlank(entries: seq<(string, string)>, m: Fields, k: string)
    requires EntriesOf(entries, m)
    ensures ExtractedFieldsView(entries).FieldList? <==> m != map[]
    ensures HasRowFor(ExtractedFieldsView(entries), k) <==> k in m && !IsBlankText(m[k])
  {
    if m != map[] {
      var k0 :| k0 in m;
      var i0 :| 0 <= i0 < |entries| && entries[i0].0 == k0;
    }
    if HasRowFor(ExtractedFieldsView(entries), k) {
      RowComesFromNonBlankEntry(entries, m, k);
    }
    if k in m && !IsBlankText(m[k]) {
      NonBlankEntryGetsRow(entries, m, k);
    }
  }

  lemma RowComesFromNonBlankEntry(entries: seq<(string, string)>, m: Fields, k: string)
    requires EntriesOf(entries, m)
    ensures HasRowFor(ExtractedFieldsView(entries), k) ==> k in m && !IsBlankText(m[k])
  {
    var v := ExtractedFieldsView(entries);
    if HasRowFor(v, k) {
      var shown := NonBlankEntries(entries);
      var i :| 0 <= i < |v.fields| && v.fields[i].key == k;
      assert (k, v.fields[i].value) == shown[i];
      assert shown[i] in shown;
      var j :| 0 <= j < |entries| && entries[j] == shown[i];
      assert entries[j].0 in m && m[entries[j].0] == entries[j].1;
    }
  }

  lemma NonBlankEntryGetsRow(entries: seq<(string, string)>, m: Fields, k: string)
    requires EntriesOf(entries, m)
    requires k in m && !IsBlankText(m[k])
    ensures HasRowFor(ExtractedFieldsView(entries), k)
  {
    var j :| 0 <= j < |entries| && entries[j].0 == k;
    assert entries[j].1 == m[k];
    var shown := NonBlankEntries(entries);
    assert entries[j] in entries;
    assert entries[j] in shown;
    var i :| 0 <= i < |shown| && shown[i] == entries[j];
    var v := ExtractedFieldsView(entries);
    assert v.fields[i].key == k;
  }

  /** Every required field of a document that passed validation gets a row
      in the view of the formatted data the route returns. */
  lemma ValidRequiredFieldsAreShown(formatDate: string -> string, documentType: string, data: Fields,
                                    entries: seq<(string, string)>, f: string)
    requires EntriesOf(entries, FormatExtractedData(formatDate, documentType, data))
    ensures ValidateExtractedData(documentType, data).isValid && f in RequiredFields(documentType) ==>
      HasRowFor(ExtractedFieldsView(entries), f)
  {
    if ValidateExtractedData(documentType, data).isValid && f in RequiredFields(documentType) {
      var formatted := FormatExtractedData(formatDate, documentType, data);
      assert !IsMissing(data, f);
      FormatKeepsRequiredMissingness(formatDate, documentType, data, f);
      ShownIffNotBlank(entries, formatted, f);
    }
  }
}
