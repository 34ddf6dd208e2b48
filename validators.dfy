/** The record validator of `src/validators.py`. */
module Validators {
  import opened Wrappers
  import opened Text
  import opened Dates

  /** The keys of the extractor's record dictionary. */
  datatype Key =
    | Surname | Name | Sex | DateOfBirth | Nationality | PassportType
    | PassportNumber | IssuingCountry | ExpirationDate | PersonalNumber
    | MrzFullString | SourceFile

  /** The dictionary key each stands for. */
  function KeyName(k: Key): string
  {
    match k
    case Surname => "surname"
    case Name => "name"
    case Sex => "sex"
    case DateOfBirth => "date_of_birth"
    case Nationality => "nationality"
    case PassportType => "passport_type"
    case PassportNumber => "passport_number"
    case IssuingCountry => "issuing_country"
    case ExpirationDate => "expiration_date"
    case PersonalNumber => "personal_number"
    case MrzFullString => "mrz_full_string"
    case SourceFile => "source_file"
  }

  /** Distinct keys have distinct names, so a record keyed by `Key` is a
      dictionary keyed by the names. */
  lemma KeyNameInjective(j: Key, k: Key)
    ensures KeyName(j) == KeyName(k) ==> j == k
  {
    if KeyName(j) == KeyName(k) {
      var n := KeyName(j);
      assert |n| == |KeyName(k)| && n[0] == KeyName(k)[0] && n[|n| - 1] == KeyName(k)[|n| - 1];
    }
  }

  /** A passport record: the extractor's dictionary. */
  type Record = map<Key, string>

  const RequiredFields: seq<Key> := [Surname, Name, PassportNumber, Nationality]
  const DateFields: seq<Key> := [DateOfBirth, ExpirationDate]
  const MrzKey: Key := MrzFullString

  /** The shortest concatenated MRZ string that passes without an issue. */
  const MinMrzLength: nat := 80

  const NoDataMessage: string := "No data to validate"
  const MissingPrefix: string := "Missing required field: "
  const DatePrefix: string := "Invalid date format for "
  const MrzPrefix: string := "MRZ string seems too short ("

  function MissingMessage(field: Key): string { MissingPrefix + KeyName(field) }

  function DateMessage(field: Key, val: string): string
  {
    DatePrefix + KeyName(field) + ": " + val + " (expected DD/MM/YYYY)"
  }

  function MrzMessage(n: nat): string { MrzPrefix + NatToString(n) + " chars)" }

  /** The truth value of a record: `None` and the empty dictionary are false. */
  predicate IsFalsy(data: Option<Record>) { data.None? || data.value == map[] }

  /** `not data.get(field)`: the field is absent or empty. */
  predicate IsMissing(d: Record, field: Key) { field !in d || d[field] == "" }

  /** A present, non-empty date field that `strptime('%d/%m/%Y')` rejects. */
  predicate HasBadDate(d: Record, field: Key) { field in d && d[field] != "" && !IsDMY(d[field]) }

  /** `len(data.get('mrz_full_string', ''))`. */
  function MrzLength(d: Record): nat { if MrzKey in d then |d[MrzKey]| else 0 }

  /** The issues the loop over `fields` appends for missing fields, in order. */
  function MissingIssues(d: Record, fields: seq<Key>): seq<string>
    decreases |fields|
  {
    if fields == [] then []
    else
      var f := fields[|fields| - 1];
      MissingIssues(d, fields[..|fields| - 1]) + (if IsMissing(d, f) then [MissingMessage(f)] else [])
  }

  /** The issues the loop over `fields` appends for malformed dates, in order. */
  function DateIssues(d: Record, fields: seq<Key>): seq<string>
    decreases |fields|
  {
    if fields == [] then []
    else
      var f := fields[|fields| - 1];
      DateIssues(d, fields[..|fields| - 1]) + (if HasBadDate(d, f) then [DateMessage(f, d[f])] else [])
  }

  function MrzIssues(d: Record): seq<string>
  {
    if MrzLength(d) < MinMrzLength then [MrzMessage(MrzLength(d))] else []
  }

  /** The report `validate_passport_data` returns. */
  function Issues(data: Option<Record>): seq<string>
  {
    if IsFalsy(data) then [NoDataMessage]
    else MissingIssues(data.value, RequiredFields) + DateIssues(data.value, DateFields) + MrzIssues(data.value)
  }

  /** The record has every required field, only well-formed dates, and a long
      enough MRZ string. */
  predicate WellFormed(d: Record)
  {
    (forall f :: f in RequiredFields ==> !IsMissing(d, f)) &&
    (forall f :: f in DateFields ==> !HasBadDate(d, f)) &&
    MrzLength(d) >= MinMrzLength
  }

  /** Well-formedness field by field. */
  lemma WellFormedByField(d: Record)
    ensures WellFormed(d) <==>
      !IsMissing(d, Surname) && !IsMissing(d, Name) &&
      !IsMissing(d, PassportNumber) && !IsMissing(d, Nationality) &&
      !HasBadDate(d, DateOfBirth) && !HasBadDate(d, ExpirationDate) &&
      MrzLength(d) >= MinMrzLength
  {
    assert forall f :: f in RequiredFields <==>
      f == Surname || f == Name || f == PassportNumber || f == Nationality;
    assert forall f :: f in DateFields <==> f == DateOfBirth || f == ExpirationDate;
  }

  /** `validate_passport_data`: reads the record (a value, so it cannot be
      changed) and builds the list of issues. */
  method ValidatePassportData(data: Option<Record>) returns (errors: seq<string>)
    ensures errors == Issues(data)
    ensures IsFalsy(data) ==> errors == [NoDataMessage]
  {
    errors := [];
    if IsFalsy(data) {
      return [NoDataMessage];
    }
    var d := data.value;

    var i := 0;
    while i < |RequiredFields|
      invariant 0 <= i <= |RequiredFields|
      invariant errors == MissingIssues(d, RequiredFields[..i])
    {
      var field := RequiredFields[i];
      assert RequiredFields[..i + 1][..i] == RequiredFields[..i];
      if field !in d || d[field] == "" {
        errors := errors + [MissingMessage(field)];
      }
      i := i + 1;
    }
    assert RequiredFields[..i] == RequiredFields;
    ghost var missing := errors;

    var j := 0;
    while j < |DateFields|
      invariant 0 <= j <= |DateFields|
      invariant errors == missing + DateIssues(d, DateFields[..j])
    {
      var field := DateFields[j];
      assert DateFields[..j + 1][..j] == DateFields[..j];
      if field in d {
        var val := d[field];
        if val != "" && !IsDMY(val) {
          errors := errors + [DateMessage(field, val)];
        }
      }
      j := j + 1;
    }
    assert DateFields[..j] == DateFields;

    var mrz := if MrzKey in d then d[MrzKey] else "";
    if |mrz| < MinMrzLength {
      errors := errors + [MrzMessage(|mrz|)];
    }
  }

  lemma MessagePrefixes(field: Key, val: string)
    ensures StartsWith(MissingMessage(field), MissingPrefix)
    ensures StartsWith(DateMessage(field, val), DatePrefix)
  {
    StartsWithConcat(MissingPrefix, KeyName(field));
    StartsWithConcat(DatePrefix, KeyName(field) + ": " + val + " (expected DD/MM/YYYY)");
    assert DateMessage(field, val) == DatePrefix + (KeyName(field) + ": " + val + " (expected DD/MM/YYYY)");
  }

  /** Each listed field adds at most one issue, and none when it is present. */
  lemma {:induction false} MissingIssuesEmpty(d: Record, fields: seq<Key>)
    ensures |MissingIssues(d, fields)| <= |fields|
    ensures MissingIssues(d, fields) == [] <==> forall f :: f in fields ==> !IsMissing(d, f)
    ensures AllStartWith(MissingIssues(d, fields), MissingPrefix)
  {
    if fields != [] {
      var init, last := fields[..|fields| - 1], fields[|fields| - 1];
      MissingIssuesEmpty(d, init);
      MessagePrefixes(last, "");
      AllStartWithConcat(MissingIssues(d, init), if IsMissing(d, last) then [MissingMessage(last)] else [], MissingPrefix);
      MembersOfSnoc(fields);
    }
  }

  lemma {:induction false} DateIssuesEmpty(d: Record, fields: seq<Key>)
    ensures |DateIssues(d, fields)| <= |fields|
    ensures DateIssues(d, fields) == [] <==> forall f :: f in fields ==> !HasBadDate(d, f)
    ensures AllStartWith(DateIssues(d, fields), DatePrefix)
  {
    if fields != [] {
      var init, last := fields[..|fields| - 1], fields[|fields| - 1];
      DateIssuesEmpty(d, init);
      var tail := if HasBadDate(d, last) then [DateMessage(last, d[last])] else [];
      if HasBadDate(d, last) {
        MessagePrefixes(last, d[last]);
      }
      AllStartWithConcat(DateIssues(d, init), tail, DatePrefix);
      MembersOfSnoc(fields);
    }
  }

  /** The members of a non-empty list are those of its front and its last element. */
  lemma MembersOfSnoc(fields: seq<Key>)
    requires fields != []
    ensures forall f :: f in fields <==> f in fields[..|fields| - 1] || f == fields[|fields| - 1]
  {
    assert fields == fields[..|fields| - 1] + [fields[|fields| - 1]];
  }

  /** A missing field is reported exactly when it is one of the listed fields
      and it is absent or empty. */
  lemma {:induction false} MissingReported(d: Record, fields: seq<Key>, f: Key)
    ensures MissingMessage(f) in MissingIssues(d, fields) <==> f in fields && IsMissing(d, f)
  {
    if fields != [] {
      var init, last := fields[..|fields| - 1], fields[|fields| - 1];
      MissingReported(d, init, f);
      MembersOfSnoc(fields);
      MissingMessageInjective(f, last);
    }
  }

  lemma MissingMessageInjective(f: Key, g: Key)
    ensures MissingMessage(f) == MissingMessage(g) ==> f == g
  {
    if MissingMessage(f) == MissingMessage(g) {
      assert KeyName(f) == MissingMessage(f)[|MissingPrefix|..] == KeyName(g);
      KeyNameInjective(f, g);
    }
  }

  /** An empty or absent date never adds an issue; a present date that fails
      the `DD/MM/YYYY` parse adds exactly one, carrying its value. */
  lemma DateIssuesOfRecord(d: Record)
    ensures DateIssues(d, DateFields) ==
      (if HasBadDate(d, DateOfBirth) then [DateMessage(DateOfBirth, d[DateOfBirth])] else []) +
      (if HasBadDate(d, ExpirationDate) then [DateMessage(ExpirationDate, d[ExpirationDate])] else [])
  {
    assert DateFields[..1] == [DateOfBirth] && DateFields[..1][..0] == [];
  }

  /** The issue one missing field adds. */
  function MissingStep(d: Record, f: Key): seq<string>
  {
    if IsMissing(d, f) then [MissingMessage(f)] else []
  }

  /** Each required field that is absent or empty adds exactly one message, in
      the order surname, name, passport number, nationality. */
  lemma MissingIssuesOfRecord(d: Record)
    ensures MissingIssues(d, RequiredFields) ==
      MissingStep(d, Surname) + MissingStep(d, Name) + MissingStep(d, PassportNumber) + MissingStep(d, Nationality)
  {
    MissingIssuesOfFour(d, Surname, Name, PassportNumber, Nationality);
  }

  /** The same for any four fields. */
  lemma MissingIssuesOfFour(d: Record, f1: Key, f2: Key, f3: Key, f4: Key)
    ensures MissingIssues(d, [f1, f2, f3, f4]) ==
      MissingStep(d, f1) + MissingStep(d, f2) + MissingStep(d, f3) + MissingStep(d, f4)
  {
    var p3 := [f1, f2, f3];
    MissingIssuesOfThree(d, f1, f2, f3);
    MissingIssuesSnoc(d, p3, f4);
    assert p3 + [f4] == [f1, f2, f3, f4];
  }

  lemma MissingIssuesOfThree(d: Record, f1: Key, f2: Key, f3: Key)
    ensures MissingIssues(d, [f1, f2, f3]) == MissingStep(d, f1) + MissingStep(d, f2) + MissingStep(d, f3)
  {
    var p2 := [f1, f2];
    MissingIssuesOfTwo(d, f1, f2);
    MissingIssuesSnoc(d, p2, f3);
    assert p2 + [f3] == [f1, f2, f3];
  }

  lemma MissingIssuesOfTwo(d: Record, f1: Key, f2: Key)
    ensures MissingIssues(d, [f1, f2]) == MissingStep(d, f1) + MissingStep(d, f2)
  {
    MissingIssuesSnoc(d, [], f1);
    MissingIssuesSnoc(d, [f1], f2);
    assert [] + [f1] == [f1];
    assert [f1] + [f2] == [f1, f2];
  }

  /** One more field adds its own issue at the end. */
  lemma MissingIssuesSnoc(d: Record, fields: seq<Key>, f: Key)
    ensures MissingIssues(d, fields + [f]) == MissingIssues(d, fields) + MissingStep(d, f)
  {
    assert (fields + [f])[..|fields + [f]| - 1] == fields;
  }

  /** The report holds the missing-field issues, then the date issues, then the
      MRZ issue; at most seven in all. */
  lemma IssuesInOrder(data: Option<Record>)
    requires !IsFalsy(data)
    ensures var all, m, t := Issues(data), |MissingIssues(data.value, RequiredFields)|, |DateIssues(data.value, DateFields)|;
      m <= 4 && t <= 2 && m + t <= |all| <= m + t + 1 && |all| <= 7 &&
      (forall i :: 0 <= i < m ==> StartsWith(all[i], MissingPrefix)) &&
      (forall i :: m <= i < m + t ==> StartsWith(all[i], DatePrefix)) &&
      (forall i :: m + t <= i < |all| ==> all[i] == MrzMessage(MrzLength(data.value)))
  {
    ReportInOrder(data.value, RequiredFields, DateFields);
  }

  /** The same for any lists of required and date fields. */
  lemma ReportInOrder(d: Record, required: seq<Key>, dates: seq<Key>)
    ensures var all, m, t := MissingIssues(d, required) + DateIssues(d, dates) + MrzIssues(d),
                             |MissingIssues(d, required)|, |DateIssues(d, dates)|;
      m <= |required| && t <= |dates| && m + t <= |all| <= m + t + 1 &&
      (forall i :: 0 <= i < m ==> StartsWith(all[i], MissingPrefix)) &&
      (forall i :: m <= i < m + t ==> StartsWith(all[i], DatePrefix)) &&
      (forall i :: m + t <= i < |all| ==> all[i] == MrzMessage(MrzLength(d)))
  {
    MissingIssuesEmpty(d, required);
    DateIssuesEmpty(d, dates);
    PartsInOrder(MissingIssues(d, required), DateIssues(d, dates), MrzIssues(d));
  }

  /** Where each part of a three-part report lands. */
  lemma PartsInOrder(ms: seq<string>, ts: seq<string>, us: seq<string>)
    ensures forall i :: 0 <= i < |ms| ==> (ms + ts + us)[i] == ms[i]
    ensures forall i :: |ms| <= i < |ms| + |ts| ==> (ms + ts + us)[i] == ts[i - |ms|]
    ensures forall i :: |ms| + |ts| <= i < |ms + ts + us| ==> (ms + ts + us)[i] == us[i - |ms| - |ts|]
  {
  }

  /** A record is reported clean exactly when it is well-formed. */
  lemma IssuesEmptyIff(data: Option<Record>)
    ensures Issues(data) == [] <==> !IsFalsy(data) && WellFormed(data.value)
  {
    if !IsFalsy(data) {
      MissingIssuesEmpty(data.value, RequiredFields);
      DateIssuesEmpty(data.value, DateFields);
    }
  }

  /** The MRZ issue for a length is reported exactly when that length is the
      record's MRZ string length and it is below the minimum. */
  lemma MrzReported(d: Record, n: nat)
    requires d != map[]
    ensures MrzMessage(n) in Issues(Some(d)) <==> n == MrzLength(d) && n < MinMrzLength
  {
    MrzReportedAmong(d, RequiredFields, DateFields, n);
  }

  /** The same for any lists of required and date fields. */
  lemma MrzReportedAmong(d: Record, required: seq<Key>, dates: seq<Key>, n: nat)
    ensures MrzMessage(n) in MissingIssues(d, required) + DateIssues(d, dates) + MrzIssues(d) <==>
      n == MrzLength(d) && n < MinMrzLength
  {
    var all := MissingIssues(d, required) + DateIssues(d, dates) + MrzIssues(d);
    var m, t := |MissingIssues(d, required)|, |DateIssues(d, dates)|;
    ReportInOrder(d, required, dates);
    if MrzMessage(n) in all {
      var i :| 0 <= i < |all| && all[i] == MrzMessage(n);
      if i < m + t {
        MrzMessageNotOther(n, all[i]);
      }
      MrzMessageInjective(n, MrzLength(d));
    }
  }

  /** No missing-field or date issue is an MRZ issue. */
  lemma MrzMessageNotOther(n: nat, x: string)
    requires StartsWith(x, MissingPrefix) || StartsWith(x, DatePrefix)
    ensures x != MrzMessage(n)
  {
    assert MrzMessage(n) == MrzPrefix + (NatToString(n) + " chars)");
    assert MrzMessage(n)[1] == MrzPrefix[1] == 'R';
    if StartsWith(x, MissingPrefix) {
      assert x[1] == x[..|MissingPrefix|][1] == 'i';
    } else {
      assert x[1] == x[..|DatePrefix|][1] == 'n';
    }
  }

  /** Distinct lengths give distinct MRZ issues. */
  lemma MrzMessageInjective(n: nat, k: nat)
    ensures MrzMessage(n) == MrzMessage(k) ==> n == k
  {
    if MrzMessage(n) == MrzMessage(k) {
      var a, b := NatToString(n), NatToString(k);
      assert a == MrzMessage(n)[|MrzPrefix|..|MrzPrefix| + |a|];
      assert b == MrzMessage(k)[|MrzPrefix|..|MrzPrefix| + |b|];
      assert |a| == |b|;
    }
  }
}
