/** The line normaliser and the field cleaners of `src/utils.py`. */
module Utils {
  import opened Wrappers
  import opened Text
  import opened Dates

  /** The length of a TD3 machine-readable-zone line. */
  const MrzLineLength: nat := 44

  /** The MRZ filler character. */
  const Filler: char := '<'

  /** The MRZ alphabet `ascii_uppercase + digits + "<"`. */
  predicate IsMrzChar(c: char) { IsUpperAscii(c) || IsDigit(c) || c == Filler }

  predicate IsMrzText(s: string) { forall i :: 0 <= i < |s| ==> IsMrzChar(s[i]) }

  /** MRZ text stays MRZ text when joined. */
  lemma MrzTextConcat(a: string, b: string)
    requires IsMrzText(a) && IsMrzText(b)
    ensures IsMrzText(a + b)
  {
    assert forall i :: 0 <= i < |a + b| ==> (a + b)[i] == if i < |a| then a[i] else b[i - |a|];
  }

  function Fillers(n: nat): (r: string)
    ensures |r| == n && forall i :: 0 <= i < n ==> r[i] == Filler
  {
    seq(n, _ => Filler)
  }

  /** What `clean_mrz_line` keeps of a line: uppercased, spaces removed,
      then filtered to the MRZ alphabet. */
  function MrzFiltered(line: string): (f: string)
    ensures IsMrzText(f)
  {
    Filter(Replace(UpperStr(line), " ", ""), IsMrzChar)
  }

  /** The kept characters are the uppercased characters of the line that are
      in the alphabet, in their original order. */
  lemma MrzFilteredIsUpperFilter(line: string)
    ensures MrzFiltered(line) == Filter(UpperStr(line), IsMrzChar)
  {
    RemoveSpaces(UpperStr(line));
    FilterAbsorbed(UpperStr(line), IsNotBlank, IsMrzChar);
  }

  lemma MrzFilteredConcat(a: string, b: string)
    ensures MrzFiltered(a + b) == MrzFiltered(a) + MrzFiltered(b)
  {
    MrzFilteredIsUpperFilter(a + b);
    MrzFilteredIsUpperFilter(a);
    MrzFilteredIsUpperFilter(b);
    UpperConcat(a, b);
    FilterConcat(UpperStr(a), UpperStr(b), IsMrzChar);
  }

  lemma MrzFilteredChar(c: char)
    ensures MrzFiltered([c]) == if IsMrzChar(Upper(c)) then [Upper(c)] else []
  {
    MrzFilteredIsUpperFilter([c]);
    assert UpperStr([c]) == [Upper(c)];
  }

  /** A text already in the alphabet passes the filter unchanged. */
  lemma MrzFilteredOfMrzText(s: string)
    requires IsMrzText(s)
    ensures MrzFiltered(s) == s
  {
    MrzFilteredIsUpperFilter(s);
    assert UpperStr(s) == s;
    FilterKeepsAll(s, IsMrzChar);
  }

  /** `clean_mrz_line`: an empty line stays empty; any other line becomes exactly
      44 characters of the alphabet, the kept characters first and in order,
      then fillers if fewer than 44 were kept. */
  function CleanMrzLine(line: string): (r: string)
    ensures line == [] ==> r == []
    ensures line != [] ==> |r| == MrzLineLength
    ensures IsMrzText(r)
    ensures line != [] ==>
      var f := MrzFiltered(line);
      (forall i :: 0 <= i < |r| && i < |f| ==> r[i] == f[i]) &&
      (forall i :: |f| <= i < |r| ==> r[i] == Filler)
  {
    if line == [] then []
    else
      var f := MrzFiltered(line);
      var padded := if |f| < MrzLineLength then f + Fillers(MrzLineLength - |f|) else f;
      padded[..MrzLineLength]
  }

  /** A well-formed MRZ line is a fixed point of the normaliser. */
  lemma CleanMrzLineFixpoint(s: string)
    requires |s| == MrzLineLength && IsMrzText(s)
    ensures CleanMrzLine(s) == s
  {
    MrzFilteredOfMrzText(s);
  }

  /** The normaliser is idempotent. */
  lemma CleanMrzLineIdempotent(line: string)
    ensures CleanMrzLine(CleanMrzLine(line)) == CleanMrzLine(line)
  {
    if line != [] {
      CleanMrzLineFixpoint(CleanMrzLine(line));
    }
  }

  /** `clean_string`: the alphanumeric characters of the text, uppercased, in
      order; `""` for `None` or an empty text. */
  function CleanString(text: Option<string>): (r: string)
    ensures !Truthy(text) ==> r == ""
    ensures Truthy(text) ==> r == Filter(UpperStr(text.value), IsAlnum)
    ensures forall i :: 0 <= i < |r| ==> IsUpperAscii(r[i]) || IsDigit(r[i])
  {
    if !Truthy(text) then ""
    else
      var r := UpperStr(Filter(text.value, IsAlnum));
      UpperFilterCommute(text.value, IsAlnum);
      r
  }

  lemma CleanStringIdempotent(text: Option<string>)
    ensures CleanString(Some(CleanString(text))) == CleanString(text)
  {
    var r := CleanString(text);
    assert UpperStr(r) == r;
    FilterKeepsAll(r, IsAlnum);
  }

  /** The example of the repository's unit test: `"Hello 123!"` becomes `"HELLO123"`. */
  lemma CleanStringExample(text: string)
    requires text == "Hello 123!"
    ensures CleanString(Some(text)) == "HELLO123"
  {
    ExampleFiltered(text);
    ExampleUppercased(Filter(text, IsAlnum));
  }

  lemma ExampleFiltered(text: string)
    requires text == "Hello 123!"
    ensures Filter(text, IsAlnum) == "Hello123"
  {
    var word, rest := text[..5], text[5..];
    assert text == word + rest;
    FilterConcat(word, rest, IsAlnum);
    ExampleWord(word);
    ExampleRest(rest);
  }

  lemma ExampleWord(s: string)
    requires s == "Hello"
    ensures Filter(s, IsAlnum) == s
  {
    FilterKeepsAll(s, IsAlnum);
  }

  lemma ExampleRest(s: string)
    requires s == " 123!"
    ensures Filter(s, IsAlnum) == "123"
  {
    var digits := s[1..4];
    assert s == [s[0]] + digits + [s[4]];
    FilterConcat([s[0]] + digits, [s[4]], IsAlnum);
    FilterConcat([s[0]], digits, IsAlnum);
    FilterKeepsAll(digits, IsAlnum);
  }

  lemma ExampleUppercased(s: string)
    requires s == "Hello123"
    ensures UpperStr(s) == "HELLO123"
  {
    assert forall i :: 0 <= i < |s| ==> UpperStr(s)[i] == "HELLO123"[i];
  }

  /** `get_sex`: `""` for a missing code, `"M"` for the digit `0` (a fallback
      of the source), otherwise the uppercased code, which covers `m`, `M`,
      `f` and `F`. */
  function GetSex(code: Option<string>): (r: string)
    ensures !Truthy(code) ==> r == ""
    ensures Truthy(code) && UpperStr(code.value) == "0" ==> r == "M"
    ensures Truthy(code) && UpperStr(code.value) != "0" ==> r == UpperStr(code.value)
  {
    var c := if Truthy(code) then UpperStr(PyStr(code)) else "";
    if c == "M" || c == "F" then c
    else if c == "0" then "M"
    else c
  }

  /** The code is standardised to `M` or `F` exactly for `m`, `M`, `f`, `F` and `0`. */
  lemma GetSexIsMaleOrFemale(code: Option<string>)
    ensures GetSex(code) == "M" <==> code == Some("m") || code == Some("M") || code == Some("0")
    ensures GetSex(code) == "F" <==> code == Some("f") || code == Some("F")
  {
    if Truthy(code) {
      var u := UpperStr(code.value);
      if |code.value| == 1 {
        var c := code.value[0];
        assert code.value == [c];
        assert u == [Upper(c)];
        assert Upper(c) == 'M' <==> c == 'm' || c == 'M';
        assert Upper(c) == 'F' <==> c == 'f' || c == 'F';
      } else {
        assert |u| != 1;
      }
    }
  }

  lemma GetSexIdempotent(code: Option<string>)
    ensures GetSex(Some(GetSex(code))) == GetSex(code)
  {
    var r := GetSex(code);
    assert UpperStr(r) == r;
  }

  /** One entry of the country table: an ISO 3166 alpha-3 code and its name. */
  datatype Country = Country(alpha3: string, name: string)

  /** The first table position holding `code`, if any (the `for` loop with early
      return of `get_country_name`). */
  function FindAlpha3(table: seq<Country>, code: string): (k: Option<nat>)
    ensures k.Some? ==> k.value < |table| && table[k.value].alpha3 == code
    ensures k.Some? ==> forall j :: 0 <= j < k.value ==> table[j].alpha3 != code
    ensures k.None? ==> forall j :: 0 <= j < |table| ==> table[j].alpha3 != code
  {
    if table == [] then None
    else if table[0].alpha3 == code then Some(0)
    else
      match FindAlpha3(table[1..], code)
      case None => None
      case Some(k) => Some(k + 1)
  }

  /** `get_country_name`: the uppercased name of the first entry whose alpha-3
      code is the uppercased `str()` of the code; the uppercased code itself
      when no entry matches. */
  function GetCountryName(table: seq<Country>, code: Option<string>): (r: string)
    ensures var c := UpperStr(PyStr(code));
      forall k :: (0 <= k < |table| && table[k].alpha3 == c &&
                   forall j :: 0 <= j < k ==> table[j].alpha3 != c) ==> r == UpperStr(table[k].name)
    ensures var c := UpperStr(PyStr(code));
      (forall j :: 0 <= j < |table| ==> table[j].alpha3 != c) ==> r == c
  {
    var c := UpperStr(PyStr(code));
    match FindAlpha3(table, c)
    case Some(k) => UpperStr(table[k].name)
    case None => c
  }

  /** `parse_date`: the text `str(obj)` goes to the date parser (an outside
      collaborator, here the parameter `dateutil`); a parsed date comes back as
      `DD/MM/YYYY` text that `strptime` reads as the same date, and a text the
      parser rejects comes back unchanged. */
  function ParseDate(dateutil: string -> Option<CalendarDate>, obj: Option<string>): (r: string)
    ensures dateutil(PyStr(obj)).Some? ==>
      PaddedDMY(r) && IsDMY(r) && DMYAt(r, 2, 2) && DMYFields(r, 2, 2) == dateutil(PyStr(obj)).value
    ensures dateutil(PyStr(obj)).None? ==> r == PyStr(obj)
  {
    match dateutil(PyStr(obj))
    case Some(d) => FormatThenParse(d); FormatDMY(d)
    case None => PyStr(obj)
  }
}
