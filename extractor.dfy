/** The pure decisions of `src/extractor.py`: the reconciliation of the OCR'd
    MRZ lines with the region detector's parse, the assembly of the record,
    and the page loop over a PDF with its re-split of the MRZ string. The
    region detector, the OCR engine and the PDF renderer are outside
    collaborators; their results are inputs here. */
module Extractor {
  import opened Wrappers
  import opened Text
  import opened Dates
  import opened Utils
  import opened Validators

  /** What the region detector parsed out of one image; every field may be absent. */
  datatype RegionParse = RegionParse(
    surname: Option<string>,
    names: Option<string>,
    sex: Option<string>,
    dateOfBirth: Option<string>,
    expirationDate: Option<string>,
    nationality: Option<string>,
    country: Option<string>,
    docType: Option<string>,
    number: Option<string>,
    personalNumber: Option<string>)

  /** What the OCR pass over the region gave: its text lines in order, or a
      failure (an exception while preparing the region or recognising text). */
  datatype OcrOutcome = OcrFailed | OcrLines(lines: seq<string>)

  /** The triple `(line1, line2, mrz)` of `extract_mrz_from_roi`. */
  datatype RoiResult = RoiResult(line1: Option<string>, line2: Option<string>, mrz: Option<RegionParse>)

  /** The position of the sex code in the second TD3 line. */
  const SexPosition: nat := 20

  /** `"".join(pieces)`. */
  function Concat(pieces: seq<string>): string
    decreases |pieces|
  {
    if pieces == [] then "" else Concat(pieces[..|pieces| - 1]) + pieces[|pieces| - 1]
  }

  /** `list(s)`: one single-character string per character. */
  function Singletons(s: string): (r: seq<string>)
    ensures |r| == |s| && forall i :: 0 <= i < |s| ==> r[i] == [s[i]]
  {
    seq(|s|, i requires 0 <= i < |s| => [s[i]])
  }

  lemma {:induction false} ConcatAppend(a: seq<string>, b: seq<string>)
    ensures Concat(a + b) == Concat(a) + Concat(b)
    decreases |b|
  {
    if b == [] {
      assert a + b == a;
    } else {
      var b' := b[..|b| - 1];
      assert (a + b)[..|a + b| - 1] == a + b';
      ConcatAppend(a, b');
    }
  }

  lemma {:induction false} ConcatSingletons(s: string)
    ensures Concat(Singletons(s)) == s
    decreases |s|
  {
    if s != [] {
      var p := s[..|s| - 1];
      assert Singletons(s)[..|s| - 1] == Singletons(p);
      ConcatSingletons(p);
      assert s == p + [s[|s| - 1]];
    }
  }

  /** Joining the character list of `s` after element `k` was replaced by `x`
      splices `x` into `s` in place of its `k`-th character. */
  lemma ConcatSpliced(s: string, k: nat, x: string)
    requires k < |s|
    ensures Concat(Singletons(s)[k := x]) == s[..k] + x + s[k + 1..]
  {
    var pieces := Singletons(s)[k := x];
    assert pieces == Singletons(s[..k]) + [x] + Singletons(s[k + 1..]);
    ConcatAppend(Singletons(s[..k]) + [x], Singletons(s[k + 1..]));
    ConcatAppend(Singletons(s[..k]), [x]);
    assert Concat([x]) == x by { assert [x][..0] == []; }
    ConcatSingletons(s[..k]);
    ConcatSingletons(s[k + 1..]);
  }

  /** `"".join(pieces)` over a list, left to right. */
  method Join(pieces: array<string>) returns (s: string)
    ensures s == Concat(pieces[..])
  {
    s := "";
    var i := 0;
    while i < pieces.Length
      invariant 0 <= i <= pieces.Length
      invariant s == Concat(pieces[..i])
    {
      assert pieces[..i + 1][..i] == pieces[..i];
      s := s + pieces[i];
      i := i + 1;
    }
    assert pieces[..] == pieces[..i];
  }

  /** The sex correction: when the detector has a sex code and line 2 is longer
      than 20 characters, the code takes the place of character 20; otherwise
      line 2 is kept. */
  function SexOverride(line2: string, sex: Option<string>): (r: string)
    ensures !(Truthy(sex) && |line2| > SexPosition) ==> r == line2
    ensures Truthy(sex) && |line2| > SexPosition && |sex.value| == 1 ==>
      |r| == |line2| && r[SexPosition] == sex.value[0] &&
      forall i :: 0 <= i < |line2| && i != SexPosition ==> r[i] == line2[i]
  {
    if Truthy(sex) && |line2| > SexPosition then line2[..SexPosition] + sex.value + line2[SexPosition + 1..]
    else line2
  }

  /** The result `extract_mrz_from_roi` gives for a detector result and an OCR
      outcome. */
  function RoiLines(detection: Option<RegionParse>, ocr: OcrOutcome): RoiResult
  {
    if detection.None? || ocr.OcrFailed? then RoiResult(None, None, None)
    else if |ocr.lines| < 2 then RoiResult(None, None, detection)
    else
      var line1 := CleanMrzLine(ocr.lines[0]);
      var line2 := CleanMrzLine(ocr.lines[1]);
      RoiResult(Some(line1), Some(SexOverride(line2, detection.value.sex)), detection)
  }

  /** `extract_mrz_from_roi` with the detector's and the OCR engine's results
      as inputs; the sex correction edits the character list of line 2 in
      place and joins it again. */
  method ExtractMrzFromRoi(detection: Option<RegionParse>, ocr: OcrOutcome)
    returns (line1: Option<string>, line2: Option<string>, mrz: Option<RegionParse>)
    ensures RoiResult(line1, line2, mrz) == RoiLines(detection, ocr)
  {
    if detection.None? {
      return None, None, None;
    }
    if ocr.OcrFailed? {
      return None, None, None;
    }
    var code := ocr.lines;
    if |code| < 2 {
      return None, None, detection;
    }
    var l1 := CleanMrzLine(code[0]);
    var l2 := CleanMrzLine(code[1]);
    var sex := detection.value.sex;
    if Truthy(sex) && |l2| > SexPosition {
      var l2List := new string[|l2|](i requires 0 <= i < |l2| => [l2[i]]);
      assert l2List[..] == Singletons(l2);
      l2List[SexPosition] := sex.value;
      assert l2List[..] == Singletons(l2)[SexPosition := sex.value];
      ConcatSpliced(l2, SexPosition, sex.value);
      l2 := Join(l2List);
    }
    return Some(l1), Some(l2), detection;
  }

  /** Without a detected region there are no lines and no parse; with one but
      fewer than two OCR lines there is a parse and no lines; otherwise two
      normalised lines. Without a sex code, or when the second line normalises
      to `""`, the second line is its normal form; otherwise the code takes the
      place of character 20, so a one-character code changes only that
      position and a longer one lengthens the line. */
  lemma RoiLinesShape(detection: Option<RegionParse>, ocr: OcrOutcome)
    ensures var r := RoiLines(detection, ocr);
      (detection.None? ==> r.mrz.None?) &&
      (r.mrz.None? <==> detection.None? || ocr.OcrFailed?) &&
      (r.mrz.Some? ==> r.mrz == detection) &&
      (r.line1.Some? <==> r.mrz.Some? && |ocr.lines| >= 2) &&
      (r.line1.Some? <==> r.line2.Some?)
    ensures var r := RoiLines(detection, ocr);
      r.line1.Some? ==> IsMrzText(r.line1.value) && |r.line1.value| in {0, MrzLineLength}
    ensures var r := RoiLines(detection, ocr);
      r.line2.Some? ==>
        var clean := CleanMrzLine(ocr.lines[1]);
        |clean| in {0, MrzLineLength} &&
        (!Truthy(detection.value.sex) || clean == [] ==> r.line2.value == clean)
    ensures var r := RoiLines(detection, ocr);
      r.line2.Some? && (!Truthy(detection.value.sex) || |detection.value.sex.value| <= 1) ==>
        var clean := CleanMrzLine(ocr.lines[1]);
        |r.line2.value| == |clean| &&
        (forall i :: 0 <= i < |clean| && i != SexPosition ==> r.line2.value[i] == clean[i]) &&
        (Truthy(detection.value.sex) && clean != [] ==> r.line2.value[SexPosition] == detection.value.sex.value[0])
    ensures var r := RoiLines(detection, ocr);
      r.line2.Some? && Truthy(detection.value.sex) && CleanMrzLine(ocr.lines[1]) != [] ==>
        var clean, code := CleanMrzLine(ocr.lines[1]), detection.value.sex.value;
        |r.line2.value| == |clean| - 1 + |code| &&
        r.line2.value[..SexPosition] == clean[..SexPosition] &&
        r.line2.value[SexPosition..SexPosition + |code|] == code &&
        r.line2.value[SexPosition + |code|..] == clean[SexPosition + 1..]
  {
    if detection.Some? && ocr.OcrLines? && |ocr.lines| >= 2 {
      var clean := CleanMrzLine(ocr.lines[1]);
      var sex := detection.value.sex;
      if Truthy(sex) && clean != [] {
        SpliceParts(clean[..SexPosition], sex.value, clean[SexPosition + 1..]);
      }
    }
  }

  /** Where the three parts of a spliced line land. */
  lemma SpliceParts(a: string, b: string, c: string)
    ensures (a + b + c)[..|a|] == a && (a + b + c)[|a|..|a| + |b|] == b && (a + b + c)[|a| + |b|..] == c
  {
  }

  /** The surname or given-names field: double fillers become a space, outer
      whitespace is stripped, letters are uppercased; `""` when absent. */
  function NameField(o: Option<string>): (r: string)
    ensures !Truthy(o) ==> r == ""
    ensures NoDoubleFiller(r)
    ensures r == [] || (!IsSpace(r[0]) && !IsSpace(r[|r| - 1]))
    ensures forall i :: 0 <= i < |r| ==> !IsLowerAscii(r[i])
  {
    if Truthy(o) then
      CleanNameShape(o.value);
      UpperStr(Strip(Replace(o.value, "<<", " ")))
    else ""
  }

  /** The letters and digits of a present name field are those of the name,
      uppercased, in order. */
  lemma NameFieldLetters(o: Option<string>)
    requires Truthy(o)
    ensures Filter(NameField(o), IsAlnum) == UpperStr(Filter(o.value, IsAlnum))
  {
    CleanNameLetters(o.value);
  }

  lemma CleanNameLetters(s: string)
    ensures Filter(UpperStr(Strip(Replace(s, "<<", " "))), IsAlnum) == UpperStr(Filter(s, IsAlnum))
  {
    var replaced := Replace(s, "<<", " ");
    ReplaceDoubleFillerFilter(s, IsAlnum);
    StripFilter(replaced, IsAlnum);
    assert forall c :: IsAlnum(Upper(c)) == IsAlnum(c);
    UpperFilterCommute(Strip(replaced), IsAlnum);
  }

  /** Two name parts of capital letters and digits joined by the `"<<"`
      separator come out as the two parts separated by one space. */
  lemma NameFieldSeparator(a: string, b: string)
    requires a != [] && b != []
    requires forall i :: 0 <= i < |a| ==> IsUpperAscii(a[i]) || IsDigit(a[i])
    requires forall i :: 0 <= i < |b| ==> IsUpperAscii(b[i]) || IsDigit(b[i])
    ensures NameField(Some(a + "<<" + b)) == a + " " + b
  {
    SeparatorReplaced(a, b);
    JoinedPartsNormal(a, b);
    NameFieldOfReplaced(a + "<<" + b, a + " " + b);
  }

  lemma SeparatorReplaced(a: string, b: string)
    requires a != [] && b != []
    requires forall i :: 0 <= i < |a| ==> IsUpperAscii(a[i]) || IsDigit(a[i])
    requires forall i :: 0 <= i < |b| ==> IsUpperAscii(b[i]) || IsDigit(b[i])
    ensures Replace(a + "<<" + b, "<<", " ") == a + " " + b
  {
    CapitalsHaveNoFiller(a);
    CapitalsHaveNoFiller(b);
    ReplaceSeparator(a, b);
    ReplaceNoDoubleFiller(a);
    ReplaceNoDoubleFiller(b);
  }

  lemma CapitalsHaveNoFiller(a: string)
    requires forall i :: 0 <= i < |a| ==> IsUpperAscii(a[i]) || IsDigit(a[i])
    ensures NoDoubleFiller(a) && (a == [] || a[|a| - 1] != '<')
  {
  }

  lemma JoinedPartsNormal(a: string, b: string)
    requires a != [] && b != []
    requires forall i :: 0 <= i < |a| ==> IsUpperAscii(a[i]) || IsDigit(a[i])
    requires forall i :: 0 <= i < |b| ==> IsUpperAscii(b[i]) || IsDigit(b[i])
    ensures var t := a + " " + b;
      !IsSpace(t[0]) && !IsSpace(t[|t| - 1]) && forall i :: 0 <= i < |t| ==> !IsLowerAscii(t[i])
  {
    var t := a + " " + b;
    assert t[0] == a[0] && t[|t| - 1] == b[|b| - 1];
    forall i | 0 <= i < |t|
      ensures !IsLowerAscii(t[i])
    {
      if i < |a| {
        assert t[i] == a[i];
      } else if i > |a| {
        assert t[i] == b[i - |a| - 1];
      }
    }
  }

  /** A name whose double fillers become a text already in normal form comes
      out as that text. */
  lemma NameFieldOfReplaced(s: string, t: string)
    requires s != [] && Replace(s, "<<", " ") == t && t != []
    requires !IsSpace(t[0]) && !IsSpace(t[|t| - 1]) && forall i :: 0 <= i < |t| ==> !IsLowerAscii(t[i])
    ensures NameField(Some(s)) == t
  {
    StripUnpadded(t);
    UpperStrNoLower(t);
  }

  /** A name already in normal form (non-empty, no double filler, no outer
      whitespace, no lowercase letter) is kept as it is. */
  lemma NameFieldFixpoint(s: string)
    requires s != [] && NoDoubleFiller(s) && !IsSpace(s[0]) && !IsSpace(s[|s| - 1])
    requires forall i :: 0 <= i < |s| ==> !IsLowerAscii(s[i])
    ensures NameField(Some(s)) == s
  {
    ReplaceNoDoubleFiller(s);
    StripUnpadded(s);
    UpperStrNoLower(s);
  }

  lemma CleanNameShape(s: string)
    ensures var r := UpperStr(Strip(Replace(s, "<<", " ")));
      NoDoubleFiller(r) && (r == [] || (!IsSpace(r[0]) && !IsSpace(r[|r| - 1]))) &&
      forall i :: 0 <= i < |r| ==> !IsLowerAscii(r[i])
  {
    var replaced := Replace(s, "<<", " ");
    var stripped := Strip(replaced);
    StrippedNoDoubleFiller(s, replaced, stripped);
    NoDoubleFillerUpper(stripped);
  }

  lemma StrippedNoDoubleFiller(s: string, replaced: string, stripped: string)
    requires replaced == Replace(s, "<<", " ") && stripped == Strip(replaced)
    ensures NoDoubleFiller(stripped)
  {
    ReplaceDoubleFiller(s);
    var k := |replaced| - |LStrip(replaced)|;
    NoDoubleFillerSlice(replaced, k, k + |stripped|);
  }

  /** `(line or "")`. */
  function OrEmpty(o: Option<string>): string
  {
    if o.Some? then o.value else ""
  }

  /** The keys of every record. */
  const RecordKeys: set<Key> := {
    Surname, Name, Sex, DateOfBirth, Nationality, PassportType, PassportNumber,
    IssuingCountry, ExpirationDate, PersonalNumber, MrzFullString, SourceFile }

  /** The ten fields `get_data` decodes from the detector's parse. */
  datatype Fields = Fields(surname: string, name: string, sex: string, dateOfBirth: string,
                           nationality: string, passportType: string, passportNumber: string,
                           issuingCountry: string, expirationDate: string, personalNumber: string)

  /** The decoding of each field: names cleaned, the sex code read, dates
      reformatted (the birth date only when present), countries looked up,
      codes reduced to letters and digits. */
  function DecodeFields(m: RegionParse, table: seq<Country>, dateutil: string -> Option<CalendarDate>): Fields
  {
    Fields(NameField(m.surname), NameField(m.names), GetSex(m.sex),
      if Truthy(m.dateOfBirth) then ParseDate(dateutil, m.dateOfBirth) else "",
      GetCountryName(table, m.nationality), CleanString(m.docType), CleanString(m.number),
      GetCountryName(table, m.country), ParseDate(dateutil, m.expirationDate), CleanString(m.personalNumber))
  }

  /** The dictionary holding the decoded fields, the MRZ string and the file name. */
  function Assemble(f: Fields, mrz: string, fileName: string): Record
  {
    map[Surname := f.surname, Name := f.name, Sex := f.sex, DateOfBirth := f.dateOfBirth,
        Nationality := f.nationality, PassportType := f.passportType, PassportNumber := f.passportNumber,
        IssuingCountry := f.issuingCountry, ExpirationDate := f.expirationDate,
        PersonalNumber := f.personalNumber, MrzKey := mrz, SourceFile := fileName]
  }

  /** Every record has the same twelve keys, and each key holds its own field. */
  lemma AssembleShape(f: Fields, mrz: string, fileName: string)
    ensures Assemble(f, mrz, fileName).Keys == RecordKeys
    ensures Assemble(f, mrz, fileName)[MrzKey] == mrz && Assemble(f, mrz, fileName)[SourceFile] == fileName
    ensures Assemble(f, mrz, fileName)[Surname] == f.surname && Assemble(f, mrz, fileName)[Name] == f.name
    ensures Assemble(f, mrz, fileName)[Sex] == f.sex
    ensures Assemble(f, mrz, fileName)[DateOfBirth] == f.dateOfBirth &&
      Assemble(f, mrz, fileName)[ExpirationDate] == f.expirationDate
    ensures Assemble(f, mrz, fileName)[Nationality] == f.nationality &&
      Assemble(f, mrz, fileName)[IssuingCountry] == f.issuingCountry
    ensures Assemble(f, mrz, fileName)[PassportType] == f.passportType &&
      Assemble(f, mrz, fileName)[PassportNumber] == f.passportNumber &&
      Assemble(f, mrz, fileName)[PersonalNumber] == f.personalNumber
  {
  }

  /** The record `get_data` returns for an image: none when the file is
      missing or no MRZ parse came back, otherwise every field decoded from the
      detector's parse, the concatenated lines, and the file name. */
  function RecordOf(fileExists: bool, detection: Option<RegionParse>, ocr: OcrOutcome,
                    table: seq<Country>, dateutil: string -> Option<CalendarDate>,
                    fileName: string): (r: Option<Record>)
    ensures r.None? <==> !fileExists || detection.None? || ocr.OcrFailed?
    ensures r.Some? ==> r.value.Keys == RecordKeys && r.value[SourceFile] == fileName
    ensures r.Some? && |ocr.lines| < 2 ==> r.value[MrzKey] == ""
  {
    if !fileExists then None
    else
      var roi := RoiLines(detection, ocr);
      if roi.mrz.None? then None
      else
        var f := DecodeFields(roi.mrz.value, table, dateutil);
        var mrz := OrEmpty(roi.line1) + OrEmpty(roi.line2);
        AssembleShape(f, mrz, fileName);
        Some(Assemble(f, mrz, fileName))
  }

  /** `get_data`: runs the region extraction and fills the record one key at a
      time. Whether the file exists and its base name are inputs. */
  method GetData(fileExists: bool, detection: Option<RegionParse>, ocr: OcrOutcome,
                 table: seq<Country>, dateutil: string -> Option<CalendarDate>,
                 fileName: string) returns (data: Option<Record>)
    ensures data == RecordOf(fileExists, detection, ocr, table, dateutil, fileName)
  {
    if !fileExists {
      return None;
    }
    var line1, line2, mrz := ExtractMrzFromRoi(detection, ocr);
    if mrz.None? {
      return None;
    }
    var m := mrz.value;
    var d: Record := map[];
    d := d[Surname := NameField(m.surname)];
    d := d[Name := NameField(m.names)];
    d := d[Sex := GetSex(m.sex)];
    d := d[DateOfBirth := if Truthy(m.dateOfBirth) then ParseDate(dateutil, m.dateOfBirth) else ""];
    d := d[Nationality := GetCountryName(table, m.nationality)];
    d := d[PassportType := CleanString(m.docType)];
    d := d[PassportNumber := CleanString(m.number)];
    d := d[IssuingCountry := GetCountryName(table, m.country)];
    d := d[ExpirationDate := ParseDate(dateutil, m.expirationDate)];
    d := d[PersonalNumber := CleanString(m.personalNumber)];
    d := d[MrzKey := OrEmpty(line1) + OrEmpty(line2)];
    d := d[SourceFile := fileName];
    return Some(d);
  }

  /** With a one-character sex code, or none, the concatenated MRZ string is
      empty, one line or two lines long. With two non-empty OCR lines it starts
      with the normalised first line and has 88 characters, plus one for each
      character of the sex code beyond the first. It is in the MRZ alphabet
      whenever the sex code is. */
  lemma RecordMrzString(detection: Option<RegionParse>, ocr: OcrOutcome, table: seq<Country>,
                        dateutil: string -> Option<CalendarDate>, fileName: string)
    requires detection.Some? && ocr.OcrLines?
    ensures var mrz, sex := RecordOf(true, detection, ocr, table, dateutil, fileName).value[MrzKey], detection.value.sex;
      (!Truthy(sex) || |sex.value| <= 1 ==> |mrz| in {0, MrzLineLength, 2 * MrzLineLength}) &&
      (|ocr.lines| >= 2 && ocr.lines[0] != "" && ocr.lines[1] != "" ==>
        |mrz| == 2 * MrzLineLength - 1 + (if Truthy(sex) then |sex.value| else 1) &&
        |mrz| >= 2 * MrzLineLength && mrz[..MrzLineLength] == CleanMrzLine(ocr.lines[0])) &&
      (!Truthy(sex) || IsMrzText(sex.value) ==> IsMrzText(mrz))
  {
    var r := RoiLines(detection, ocr);
    RoiLinesShape(detection, ocr);
    if |ocr.lines| >= 2 {
      var l1, l2 := r.line1.value, r.line2.value;
      var mrz := l1 + l2;
      assert mrz[..|l1|] == l1;
      var sex := detection.value.sex;
      var clean := CleanMrzLine(ocr.lines[1]);
      if Truthy(sex) && clean != [] && IsMrzText(sex.value) {
        assert l2 == clean[..SexPosition] + sex.value + clean[SexPosition + 1..];
        MrzTextConcat(clean[..SexPosition], sex.value);
        MrzTextConcat(clean[..SexPosition] + sex.value, clean[SexPosition + 1..]);
      }
      if !Truthy(sex) || IsMrzText(sex.value) {
        MrzTextConcat(l1, l2);
      }
    }
  }

  /** A record whose required fields decode to non-empty text, whose dates the
      date parser reads (or whose birth date is absent), and whose two OCR
      lines are non-empty, is well-formed for the validator. */
  lemma RecordWellFormed(detection: Option<RegionParse>, ocr: OcrOutcome, table: seq<Country>,
                         dateutil: string -> Option<CalendarDate>, fileName: string)
    requires detection.Some? && ocr.OcrLines? && |ocr.lines| >= 2
    requires ocr.lines[0] != "" && ocr.lines[1] != ""
    requires var m := detection.value;
      NameField(m.surname) != "" && NameField(m.names) != "" &&
      CleanString(m.number) != "" && GetCountryName(table, m.nationality) != ""
    requires var m := detection.value;
      (!Truthy(m.dateOfBirth) || dateutil(PyStr(m.dateOfBirth)).Some?) &&
      dateutil(PyStr(m.expirationDate)).Some?
    ensures WellFormed(RecordOf(true, detection, ocr, table, dateutil, fileName).value)
  {
    var roi := RoiLines(detection, ocr);
    var d := RecordOf(true, detection, ocr, table, dateutil, fileName).value;
    AssembleShape(DecodeFields(detection.value, table, dateutil), OrEmpty(roi.line1) + OrEmpty(roi.line2), fileName);
    RecordMrzString(detection, ocr, table, dateutil, fileName);
    WellFormedByField(d);
  }

  /** Such a record passes validation with no issue. */
  lemma RecordPassesValidation(detection: Option<RegionParse>, ocr: OcrOutcome, table: seq<Country>,
                               dateutil: string -> Option<CalendarDate>, fileName: string)
    requires detection.Some? && ocr.OcrLines? && |ocr.lines| >= 2
    requires ocr.lines[0] != "" && ocr.lines[1] != ""
    requires var m := detection.value;
      NameField(m.surname) != "" && NameField(m.names) != "" &&
      CleanString(m.number) != "" && GetCountryName(table, m.nationality) != ""
    requires var m := detection.value;
      (!Truthy(m.dateOfBirth) || dateutil(PyStr(m.dateOfBirth)).Some?) &&
      dateutil(PyStr(m.expirationDate)).Some?
    ensures Issues(RecordOf(true, detection, ocr, table, dateutil, fileName)) == []
  {
    RecordWellFormed(detection, ocr, table, dateutil, fileName);
    IssuesEmptyIff(RecordOf(true, detection, ocr, table, dateutil, fileName));
  }

  /** The second normalisation pass for PDF pages: a string of at least 88
      characters is cut after 44 and both halves are normalised again. */
  function PdfMrzFix(s: string): (r: string)
    ensures |s| < 2 * MrzLineLength ==> r == s
    ensures |s| >= 2 * MrzLineLength ==> |r| == 2 * MrzLineLength && IsMrzText(r)
  {
    if |s| >= 2 * MrzLineLength then CleanMrzLine(s[..MrzLineLength]) + CleanMrzLine(s[MrzLineLength..])
    else s
  }

  /** Two well-formed lines pass the PDF fix unchanged, and the fix is idempotent. */
  lemma PdfMrzFixStable(s: string)
    ensures |s| == 2 * MrzLineLength && IsMrzText(s) ==> PdfMrzFix(s) == s
    ensures PdfMrzFix(PdfMrzFix(s)) == PdfMrzFix(s)
  {
    if |s| == 2 * MrzLineLength && IsMrzText(s) {
      CleanMrzLineFixpoint(s[..MrzLineLength]);
      CleanMrzLineFixpoint(s[MrzLineLength..]);
      assert s == s[..MrzLineLength] + s[MrzLineLength..];
    }
    var r := PdfMrzFix(s);
    if |r| == 2 * MrzLineLength {
      CleanMrzLineFixpoint(r[..MrzLineLength]);
      CleanMrzLineFixpoint(r[MrzLineLength..]);
      assert r == r[..MrzLineLength] + r[MrzLineLength..];
    }
  }

  /** The fix as `process_pdf` applies it to a record whose MRZ string is
      non-empty and at least two lines long. */
  function FixRecord(r: Record): Record
  {
    if MrzKey in r && r[MrzKey] != "" && |r[MrzKey]| >= 2 * MrzLineLength
    then r[MrzKey := PdfMrzFix(r[MrzKey])] else r
  }

  /** One rendered PDF page, as the detector and the OCR engine see it. */
  datatype Page = Page(detection: Option<RegionParse>, ocr: OcrOutcome)

  /** The base name of the image page `i` (from 0) is saved under. */
  function PageFileName(i: nat): string
  {
    "temp_page_" + NatToString(i + 1) + ".png"
  }

  /** The PDF fix lifted to a possibly missing record. */
  function FixResult(result: Option<Record>): Option<Record>
  {
    match result
    case None => None
    case Some(r) => Some(FixRecord(r))
  }

  /** The record the page at position `i` yields, after the PDF fix. */
  function PageResult(page: Page, i: nat, table: seq<Country>,
                      dateutil: string -> Option<CalendarDate>): Option<Record>
  {
    FixResult(RecordOf(true, page.detection, page.ocr, table, dateutil, PageFileName(i)))
  }

  function PageResults(pages: seq<Page>, table: seq<Country>,
                       dateutil: string -> Option<CalendarDate>): (rs: seq<Option<Record>>)
    ensures |rs| == |pages|
    ensures forall i :: 0 <= i < |pages| ==> rs[i] == PageResult(pages[i], i, table, dateutil)
  {
    seq(|pages|, i requires 0 <= i < |pages| => PageResult(pages[i], i, table, dateutil))
  }

  /** The results `if result: extracted_data.append(result)` keeps, in order. */
  function Kept(results: seq<Option<Record>>): seq<Record>
    decreases |results|
  {
    if results == [] then []
    else
      var last := results[|results| - 1];
      Kept(results[..|results| - 1]) + (if IsFalsy(last) then [] else [last.value])
  }

  /** Keeping one more result appends its record when it is truthy. */
  lemma KeptSnoc(results: seq<Option<Record>>, i: nat)
    requires i < |results|
    ensures Kept(results[..i + 1]) ==
      Kept(results[..i]) + (if IsFalsy(results[i]) then [] else [results[i].value])
  {
    assert results[..i + 1][..i] == results[..i];
  }

  /** What `process_pdf` returns: nothing when the PDF cannot be rendered
      (`conversion` is `None`), otherwise the records of its pages. */
  function PdfRecords(conversion: Option<seq<Page>>, table: seq<Country>,
                      dateutil: string -> Option<CalendarDate>): seq<Record>
  {
    match conversion
    case None => []
    case Some(pages) => Kept(PageResults(pages, table, dateutil))
  }

  /** The re-normalisation `process_pdf` applies to each page's record. */
  method FixPageRecord(extracted: Option<Record>) returns (result: Option<Record>)
    ensures result == FixResult(extracted)
  {
    result := extracted;
    if result.Some? && MrzKey in result.value && result.value[MrzKey] != "" {
      var fullMrz := result.value[MrzKey];
      if |fullMrz| >= 2 * MrzLineLength {
        result := Some(result.value[MrzKey := PdfMrzFix(fullMrz)]);
      }
    }
  }

  /** The body of `process_pdf`'s loop for the page at position `i`: the
      page's record, with a long MRZ string re-normalised. */
  method PageRecord(page: Page, i: nat, table: seq<Country>,
                    dateutil: string -> Option<CalendarDate>) returns (result: Option<Record>)
    ensures result == PageResult(page, i, table, dateutil)
  {
    var extracted := GetData(true, page.detection, page.ocr, table, dateutil, PageFileName(i));
    result := FixPageRecord(extracted);
  }

  /** `process_pdf`: runs `get_data` on every page, re-normalises a long MRZ
      string, and collects the records. Rendering, the temporary files and
      logging are left to the caller. */
  method ProcessPdf(conversion: Option<seq<Page>>, table: seq<Country>,
                    dateutil: string -> Option<CalendarDate>) returns (extractedData: seq<Record>)
    ensures extractedData == PdfRecords(conversion, table, dateutil)
  {
    extractedData := [];
    if conversion.None? {
      return [];
    }
    var pages := conversion.value;
    ghost var results := PageResults(pages, table, dateutil);
    var i := 0;
    while i < |pages|
      invariant 0 <= i <= |pages|
      invariant extractedData == Kept(results[..i])
    {
      var result := PageRecord(pages[i], i, table, dateutil);
      KeptSnoc(results, i);
      if !IsFalsy(result) {
        extractedData := extractedData + [result.value];
      }
      i := i + 1;
    }
    assert results[..i] == results;
  }

  /** At most one record per result, and the records of earlier results come first. */
  lemma {:induction false} KeptInOrder(results: seq<Option<Record>>, m: nat)
    requires m <= |results|
    ensures |Kept(results)| <= |results|
    ensures |Kept(results[..m])| <= |Kept(results)|
    ensures Kept(results[..m]) == Kept(results)[..|Kept(results[..m])|]
    decreases |results|
  {
    if results != [] {
      var init := results[..|results| - 1];
      if m < |results| {
        assert results[..m] == init[..m];
        KeptInOrder(init, m);
      } else {
        assert results[..m] == results;
        KeptInOrder(init, 0);
      }
    }
  }

  /** Every kept record is the value of a truthy result. */
  lemma {:induction false} KeptFrom(results: seq<Option<Record>>)
    ensures forall r :: r in Kept(results) ==> Some(r) in results && r != map[]
    decreases |results|
  {
    if results != [] {
      var init := results[..|results| - 1];
      KeptFrom(init);
      assert forall x :: x in init ==> x in results;
    }
  }

  /** Every page record has all the record's keys, and its MRZ string is
      either shorter than two lines or exactly two lines in the MRZ alphabet. */
  lemma PageResultShape(page: Page, i: nat, table: seq<Country>,
                        dateutil: string -> Option<CalendarDate>)
    ensures var r := PageResult(page, i, table, dateutil);
      r.Some? ==> (r.value.Keys == RecordKeys &&
        (|r.value[MrzKey]| < 2 * MrzLineLength ||
         (|r.value[MrzKey]| == 2 * MrzLineLength && IsMrzText(r.value[MrzKey]))))
  {
  }

  /** `process_pdf` returns at most one record per page, none when the document
      cannot be rendered, and every record it returns is shaped as above. */
  lemma PdfRecordsShape(conversion: Option<seq<Page>>, table: seq<Country>,
                        dateutil: string -> Option<CalendarDate>)
    ensures conversion.None? ==> PdfRecords(conversion, table, dateutil) == []
    ensures conversion.Some? ==> |PdfRecords(conversion, table, dateutil)| <= |conversion.value|
    ensures forall r :: r in PdfRecords(conversion, table, dateutil) ==>
      r.Keys == RecordKeys &&
      (|r[MrzKey]| < 2 * MrzLineLength || (|r[MrzKey]| == 2 * MrzLineLength && IsMrzText(r[MrzKey])))
  {
    if conversion.Some? {
      var pages := conversion.value;
      var results := PageResults(pages, table, dateutil);
      KeptInOrder(results, 0);
      KeptFrom(results);
      forall i | 0 <= i < |pages|
        ensures var r := results[i]; r.Some? ==> (r.value.Keys == RecordKeys &&
          (|r.value[MrzKey]| < 2 * MrzLineLength ||
           (|r.value[MrzKey]| == 2 * MrzLineLength && IsMrzText(r.value[MrzKey]))))
      {
        PageResultShape(pages[i], i, table, dateutil);
      }
    }
  }

  /** Two lines already in normal form, whose sex position agrees with the
      detector's code (or with no code), come through `extract_mrz_from_roi`
      unchanged; the record's MRZ string is the two lines, which the PDF fix
      leaves alone. */
  lemma NormalisedLinesKept(detection: RegionParse, line1: string, line2: string, table: seq<Country>,
                            dateutil: string -> Option<CalendarDate>, fileName: string)
    requires |line1| == MrzLineLength && IsMrzText(line1)
    requires |line2| == MrzLineLength && IsMrzText(line2)
    requires !Truthy(detection.sex) || detection.sex.value == [line2[SexPosition]]
    ensures RoiLines(Some(detection), OcrLines([line1, line2])) == RoiResult(Some(line1), Some(line2), Some(detection))
    ensures var r := RecordOf(true, Some(detection), OcrLines([line1, line2]), table, dateutil, fileName);
      r.Some? && r.value[MrzKey] == line1 + line2 && |r.value[MrzKey]| == 2 * MrzLineLength &&
      PdfMrzFix(r.value[MrzKey]) == line1 + line2
  {
    NormalisedRoi(detection, line1, line2);
    AssembleShape(DecodeFields(detection, table, dateutil), line1 + line2, fileName);
    MrzTextConcat(line1, line2);
    PdfMrzFixStable(line1 + line2);
  }

  lemma NormalisedRoi(detection: RegionParse, line1: string, line2: string)
    requires |line1| == MrzLineLength && IsMrzText(line1)
    requires |line2| == MrzLineLength && IsMrzText(line2)
    requires !Truthy(detection.sex) || detection.sex.value == [line2[SexPosition]]
    ensures RoiLines(Some(detection), OcrLines([line1, line2])) == RoiResult(Some(line1), Some(line2), Some(detection))
  {
    CleanMrzLineFixpoint(line1);
    CleanMrzLineFixpoint(line2);
    SexOverrideAgrees(line2, detection.sex);
  }

  /** Writing the character already at the sex position changes nothing. */
  lemma SexOverrideAgrees(line2: string, sex: Option<string>)
    requires |line2| > SexPosition
    requires !Truthy(sex) || sex.value == [line2[SexPosition]]
    ensures SexOverride(line2, sex) == line2
  {
    if Truthy(sex) {
      assert line2[..SexPosition] + [line2[SexPosition]] + line2[SexPosition + 1..] == line2;
    }
  }

  /** The specimen passport of ICAO Doc 9303: both lines are already
      normalised and the detector's sex code agrees with position 20, so the
      MRZ string is the two lines, 88 characters, which the PDF fix leaves
      alone. */
  lemma SpecimenLines(line1: string, line2: string, detection: RegionParse, table: seq<Country>,
                      dateutil: string -> Option<CalendarDate>, fileName: string)
    requires line1 == "P<UTOERIKSSON<<ANNA<MARIA<<<<<<<<<<<<<<<<<<<"
    requires line2 == "L898902C36UTO7408122F1204159ZE184226B<<<<<10"
    requires detection.sex == Some("F")
    ensures RoiLines(Some(detection), OcrLines([line1, line2])) == RoiResult(Some(line1), Some(line2), Some(detection))
    ensures var r := RecordOf(true, Some(detection), OcrLines([line1, line2]), table, dateutil, fileName);
      r.Some? && r.value[MrzKey] == line1 + line2 && |r.value[MrzKey]| == 2 * MrzLineLength &&
      PdfMrzFix(r.value[MrzKey]) == line1 + line2
  {
    SpecimenLine1Clean(line1);
    SpecimenLine2Clean(line2);
    assert line2[SexPosition] == 'F';
    NormalisedLinesKept(detection, line1, line2, table, dateutil, fileName);
  }

  /** Each specimen line is a fixed point of the line normalisation. */
  lemma SpecimenLine1Clean(line: string)
    requires line == "P<UTOERIKSSON<<ANNA<MARIA<<<<<<<<<<<<<<<<<<<"
    ensures |line| == MrzLineLength && IsMrzText(line) && CleanMrzLine(line) == line
  {
    assert IsMrzText(line);
    CleanMrzLineFixpoint(line);
  }

  lemma SpecimenLine2Clean(line: string)
    requires line == "L898902C36UTO7408122F1204159ZE184226B<<<<<10"
    ensures |line| == MrzLineLength && IsMrzText(line) && CleanMrzLine(line) == line
  {
    assert IsMrzText(line);
    CleanMrzLineFixpoint(line);
  }
}
