/** The parts of Python's `str` that the MRZ post-processing relies on,
    restricted to ASCII: `upper`, `isalnum`, `isspace`, `replace`, `strip`,
    comprehension filters, `str(n)` on a natural number, and the truth value
    and `str()` of an optional string. */
module Text {
  import opened Wrappers

  predicate IsUpperAscii(c: char) { 'A' <= c <= 'Z' }

  predicate IsLowerAscii(c: char) { 'a' <= c <= 'z' }

  predicate IsDigit(c: char) { '0' <= c <= '9' }

  /** `str.isalnum` on an ASCII character. */
  predicate IsAlnum(c: char) { IsUpperAscii(c) || IsLowerAscii(c) || IsDigit(c) }

  /** `str.isspace` on an ASCII character: space, tab, line feed, vertical tab,
      form feed, carriage return and the four separators 0x1C-0x1F. */
  predicate IsSpace(c: char) { c == ' ' || '\t' <= c <= '\r' || '\U{1C}' <= c <= '\U{1F}' }

  /** `str.upper` on one ASCII character. */
  function Upper(c: char): (u: char)
    ensures !IsLowerAscii(u)
    ensures IsLowerAscii(c) ==> IsUpperAscii(u) && u as int == c as int - 32
    ensures !IsLowerAscii(c) ==> u == c
  {
    if IsLowerAscii(c) then (c as int - 32) as char else c
  }

  /** `str.upper` on a string: position by position. */
  function UpperStr(s: string): (r: string)
    ensures |r| == |s|
    ensures forall i :: 0 <= i < |s| ==> r[i] == Upper(s[i])
  {
    seq(|s|, i requires 0 <= i < |s| => Upper(s[i]))
  }

  /** A string with no lowercase letter is its own `upper()`. */
  lemma UpperStrNoLower(s: string)
    requires forall i :: 0 <= i < |s| ==> !IsLowerAscii(s[i])
    ensures UpperStr(s) == s
  {
  }

  /** `s.startswith(p)`. */
  predicate StartsWith(s: string, p: string) { |p| <= |s| && s[..|p|] == p }

  lemma StartsWithConcat(p: string, t: string)
    ensures StartsWith(p + t, p)
  {
    assert (p + t)[..|p|] == p;
  }

  /** Every string of `xs` starts with `p`. */
  ghost predicate AllStartWith(xs: seq<string>, p: string)
  {
    forall i :: 0 <= i < |xs| ==> StartsWith(xs[i], p)
  }

  lemma AllStartWithConcat(xs: seq<string>, ys: seq<string>, p: string)
    requires AllStartWith(xs, p) && AllStartWith(ys, p)
    ensures AllStartWith(xs + ys, p)
  {
    forall i | 0 <= i < |xs + ys|
      ensures StartsWith((xs + ys)[i], p)
    {
      if i < |xs| {
        assert (xs + ys)[i] == xs[i];
      } else {
        assert (xs + ys)[i] == ys[i - |xs|];
      }
    }
  }

  /** The truth value of an optional string: `None` and `""` are false. */
  predicate Truthy(o: Option<string>) { o.Some? && o.value != "" }

  /** `str(o)` of an optional string. */
  function PyStr(o: Option<string>): string
  {
    match o
    case None => "None"
    case Some(s) => s
  }

  /** The characters of `s` that satisfy `keep`, in order (a comprehension filter). */
  function Filter(s: string, keep: char -> bool): (r: string)
    ensures |r| <= |s|
    ensures forall i :: 0 <= i < |r| ==> keep(r[i])
  {
    if s == [] then []
    else if keep(s[0]) then [s[0]] + Filter(s[1..], keep)
    else Filter(s[1..], keep)
  }

  /** Filtering distributes over concatenation, so the kept characters keep their order. */
  lemma {:induction false} FilterConcat(s: string, t: string, keep: char -> bool)
    ensures Filter(s + t, keep) == Filter(s, keep) + Filter(t, keep)
  {
    if s == [] {
      assert s + t == t;
    } else {
      assert (s + t)[0] == s[0];
      assert (s + t)[1..] == s[1..] + t;
      FilterConcat(s[1..], t, keep);
    }
  }

  /** A string all of whose characters pass the filter is left as it is. */
  lemma {:induction false} FilterKeepsAll(s: string, keep: char -> bool)
    requires forall i :: 0 <= i < |s| ==> keep(s[i])
    ensures Filter(s, keep) == s
  {
    if s != [] {
      FilterKeepsAll(s[1..], keep);
    }
  }

  /** `s.replace(pat, rep)`: every non-overlapping occurrence of `pat`, scanning
      from the left, is replaced by `rep`. */
  function Replace(s: string, pat: string, rep: string): string
    requires pat != []
    decreases |s|
  {
    if |s| < |pat| then s
    else if s[..|pat|] == pat then rep + Replace(s[|pat|..], pat, rep)
    else [s[0]] + Replace(s[1..], pat, rep)
  }

  /** A filter whose test is implied by a second filter's test is absorbed by it. */
  lemma {:induction false} FilterAbsorbed(s: string, first: char -> bool, second: char -> bool)
    requires forall c :: second(c) ==> first(c)
    ensures Filter(Filter(s, first), second) == Filter(s, second)
  {
    if s != [] {
      FilterAbsorbed(s[1..], first, second);
    }
  }

  /** `str.upper` distributes over concatenation. */
  lemma UpperConcat(s: string, t: string)
    ensures UpperStr(s + t) == UpperStr(s) + UpperStr(t)
  {
  }

  /** Uppercasing commutes with a filter whose test ignores case. */
  lemma {:induction false} UpperFilterCommute(s: string, keep: char -> bool)
    requires forall c :: keep(Upper(c)) == keep(c)
    ensures UpperStr(Filter(s, keep)) == Filter(UpperStr(s), keep)
  {
    if s != [] {
      UpperFilterCommute(s[1..], keep);
      assert UpperStr(s)[1..] == UpperStr(s[1..]);
      if keep(s[0]) {
        assert Filter(s, keep) == [s[0]] + Filter(s[1..], keep);
        UpperConcat([s[0]], Filter(s[1..], keep));
      }
    }
  }

  predicate IsNotBlank(c: char) { c != ' ' }

  /** Removing the spaces of a string (`replace(" ", "")`) leaves no space and
      keeps every other character, in order. */
  lemma {:induction false} RemoveSpaces(s: string)
    ensures Replace(s, " ", "") == Filter(s, IsNotBlank)
  {
    if s != [] {
      RemoveSpaces(s[1..]);
    }
  }

  /** No two adjacent filler characters survive `replace("<<", " ")`. */
  ghost predicate NoDoubleFiller(s: string)
  {
    forall i, j :: 0 <= i < j < |s| && j == i + 1 ==> !(s[i] == '<' && s[j] == '<')
  }

  lemma NoDoubleFillerSlice(s: string, i: nat, j: nat)
    requires NoDoubleFiller(s) && i <= j <= |s|
    ensures NoDoubleFiller(s[i..j])
  {
    assert forall k :: 0 <= k < j - i ==> s[i..j][k] == s[i + k];
  }

  /** Uppercasing keeps fillers where they are and creates none. */
  lemma NoDoubleFillerUpper(s: string)
    requires NoDoubleFiller(s)
    ensures NoDoubleFiller(UpperStr(s))
  {
    assert forall k :: 0 <= k < |s| ==> (UpperStr(s)[k] == '<' <==> s[k] == '<');
  }

  /** `replace("<<", " ")` keeps exactly the characters of `s` that neither a
      filler nor a space would pass. */
  lemma {:induction false} ReplaceDoubleFillerFilter(s: string, keep: char -> bool)
    requires !keep('<') && !keep(' ')
    ensures Filter(Replace(s, "<<", " "), keep) == Filter(s, keep)
  {
    if |s| < 2 {
    } else if s[..2] == "<<" {
      ReplaceDoubleFillerFilter(s[2..], keep);
      FilterConcat(" ", Replace(s[2..], "<<", " "), keep);
      assert s == s[..2] + s[2..];
      FilterConcat(s[..2], s[2..], keep);
    } else {
      ReplaceDoubleFillerFilter(s[1..], keep);
      FilterConcat([s[0]], Replace(s[1..], "<<", " "), keep);
    }
  }

  /** A `"<<"` separator not preceded by a filler becomes one space, and the
      text on either side is replaced on its own. */
  lemma {:induction false} ReplaceSeparator(a: string, b: string)
    requires a == [] || a[|a| - 1] != '<'
    ensures Replace(a + "<<" + b, "<<", " ") == Replace(a, "<<", " ") + " " + Replace(b, "<<", " ")
  {
    var s := a + "<<" + b;
    if a == [] {
      assert s == "<<" + b && s[..2] == "<<" && s[2..] == b;
    } else if |a| >= 2 && a[..2] == "<<" {
      assert s[..2] == "<<" && s[2..] == a[2..] + "<<" + b;
      ReplaceSeparator(a[2..], b);
    } else {
      assert s[..2] != "<<" by {
        if |a| == 1 {
          assert s[1] == '<' && s[0] == a[0] != '<';
        } else {
          assert s[..2] == a[..2];
        }
      }
      assert s[0] == a[0] && s[1..] == a[1..] + "<<" + b;
      ReplaceSeparator(a[1..], b);
    }
  }

  /** A string with no double filler is its own `replace("<<", " ")`. */
  lemma {:induction false} ReplaceNoDoubleFiller(s: string)
    requires NoDoubleFiller(s)
    ensures Replace(s, "<<", " ") == s
  {
    if |s| >= 2 {
      assert s[..2] != "<<" by {
        assert !(s[0] == '<' && s[1] == '<');
      }
      NoDoubleFillerSlice(s, 1, |s|);
      assert s[1..|s|] == s[1..];
      ReplaceNoDoubleFiller(s[1..]);
    }
  }

  /** `replace("<<", " ")` leaves no two adjacent fillers and never lengthens the text. */
  lemma ReplaceDoubleFiller(s: string)
    ensures NoDoubleFiller(Replace(s, "<<", " "))
    ensures |Replace(s, "<<", " ")| <= |s|
  {
    ReplaceDoubleFillerHead(s);
  }

  /** The same, together with what the first character of the result can be,
      which the induction needs. */
  lemma {:induction false} ReplaceDoubleFillerHead(s: string)
    ensures NoDoubleFiller(Replace(s, "<<", " "))
    ensures |Replace(s, "<<", " ")| <= |s|
    ensures Replace(s, "<<", " ") != [] && Replace(s, "<<", " ")[0] == '<' ==> s[0] == '<' && (|s| == 1 || s[1] != '<')
  {
    var r := Replace(s, "<<", " ");
    if |s| < 2 {
    } else if s[..2] == "<<" {
      ReplaceDoubleFillerHead(s[2..]);
    } else {
      ReplaceDoubleFillerHead(s[1..]);
      var t := Replace(s[1..], "<<", " ");
      assert r == [s[0]] + t;
      if s[0] == '<' {
        assert s[1] != '<';
        assert t != [] && t[0] != '<' by {
          if |s[1..]| < 2 {
            assert t == s[1..];
          } else {
            assert s[1..][..2] != "<<";
            assert t == [s[1]] + Replace(s[2..], "<<", " ") by {
              assert s[1..][1..] == s[2..];
            }
          }
        }
      }
    }
  }

  /** The leading whitespace of `s` removed (`lstrip()`). */
  function LStrip(s: string): (r: string)
    ensures |r| <= |s| && r == s[|s| - |r|..]
    ensures forall i :: 0 <= i < |s| - |r| ==> IsSpace(s[i])
    ensures r == [] || !IsSpace(r[0])
  {
    if s != [] && IsSpace(s[0]) then LStrip(s[1..]) else s
  }

  /** The trailing whitespace of `s` removed (`rstrip()`). */
  function RStrip(s: string): (r: string)
    ensures |r| <= |s| && r == s[..|r|]
    ensures forall i :: |r| <= i < |s| ==> IsSpace(s[i])
    ensures r == [] || !IsSpace(r[|r| - 1])
  {
    if s != [] && IsSpace(s[|s| - 1]) then RStrip(s[..|s| - 1]) else s
  }

  /** `strip()`: a contiguous piece of `s` with no whitespace at either end. */
  function Strip(s: string): (r: string)
    ensures |r| <= |s|
    ensures r == [] || (!IsSpace(r[0]) && !IsSpace(r[|r| - 1]))
    ensures var k := |s| - |LStrip(s)|; k + |r| <= |s| && r == s[k..k + |r|]
  {
    var l := LStrip(s);
    var r := RStrip(l);
    PrefixOfSuffix(s, |s| - |l|, |r|);
    assert r != [] ==> r[0] == l[0];
    r
  }

  /** `strip()` removes only whitespace: everything before and after the piece
      it keeps is whitespace. */
  lemma StripRemovesSpaces(s: string)
    ensures var k := |s| - |LStrip(s)|;
      (forall i :: 0 <= i < k ==> IsSpace(s[i])) && (forall i :: k + |Strip(s)| <= i < |s| ==> IsSpace(s[i]))
  {
    var l := LStrip(s);
    SuffixSpaces(s, |s| - |l|, l, |RStrip(l)|);
  }

  /** Whitespace at the end of a suffix of `s` is whitespace at the end of `s`. */
  lemma SuffixSpaces(s: string, k: nat, l: string, n: nat)
    requires k <= |s| && l == s[k..] && n <= |l|
    requires forall j :: n <= j < |l| ==> IsSpace(l[j])
    ensures forall i :: k + n <= i < |s| ==> IsSpace(s[i])
  {
    forall i | k + n <= i < |s|
      ensures IsSpace(s[i])
    {
      assert s[i] == l[i - k];
    }
  }

  /** A string with no whitespace at either end is its own `strip()`. */
  lemma StripUnpadded(s: string)
    requires s != [] && !IsSpace(s[0]) && !IsSpace(s[|s| - 1])
    ensures Strip(s) == s
  {
    assert LStrip(s) == s;
    assert RStrip(s) == s;
  }

  /** Filtering by a test that whitespace fails sees through `strip()`. */
  lemma StripFilter(s: string, keep: char -> bool)
    requires forall c :: IsSpace(c) ==> !keep(c)
    ensures Filter(Strip(s), keep) == Filter(s, keep)
  {
    LStripFilter(s, keep);
    RStripFilter(LStrip(s), keep);
  }

  lemma {:induction false} LStripFilter(s: string, keep: char -> bool)
    requires forall c :: IsSpace(c) ==> !keep(c)
    ensures Filter(LStrip(s), keep) == Filter(s, keep)
  {
    if s != [] && IsSpace(s[0]) {
      LStripFilter(s[1..], keep);
    }
  }

  lemma {:induction false} RStripFilter(s: string, keep: char -> bool)
    requires forall c :: IsSpace(c) ==> !keep(c)
    ensures Filter(RStrip(s), keep) == Filter(s, keep)
  {
    if s != [] && IsSpace(s[|s| - 1]) {
      var init := s[..|s| - 1];
      RStripFilter(init, keep);
      assert s == init + [s[|s| - 1]];
      FilterConcat(init, [s[|s| - 1]], keep);
    }
  }

  lemma PrefixOfSuffix(s: string, k: nat, n: nat)
    requires k + n <= |s|
    ensures s[k..][..n] == s[k..k + n]
  {
  }

  /** The character of a decimal digit. */
  function DigitChar(n: nat): (c: char)
    requires n < 10
    ensures IsDigit(c) && DigitValue(c) == n
  {
    ('0' as int + n) as char
  }

  function DigitValue(c: char): (n: nat)
    requires IsDigit(c)
    ensures n < 10
  {
    c as int - '0' as int
  }

  /** The number a string of decimal digits denotes. */
  function DigitsValue(s: string): nat
    requires forall i :: 0 <= i < |s| ==> IsDigit(s[i])
  {
    if s == [] then 0
    else DigitsValue(s[..|s| - 1]) * 10 + DigitValue(s[|s| - 1])
  }

  lemma DigitsValueOne(s: string)
    requires |s| == 1 && IsDigit(s[0])
    ensures DigitsValue(s) == DigitValue(s[0])
  {
    assert s[..0] == [];
  }

  lemma DigitsValueTwo(s: string)
    requires |s| == 2 && IsDigit(s[0]) && IsDigit(s[1])
    ensures DigitsValue(s) == 10 * DigitValue(s[0]) + DigitValue(s[1])
  {
    assert s[..1] == [s[0]];
    DigitsValueOne(s[..1]);
  }

  /** `str(n)` for a natural number: its decimal digits without leading zeros. */
  function NatToString(n: nat): (r: string)
    ensures r != []
    ensures forall i :: 0 <= i < |r| ==> IsDigit(r[i])
    ensures DigitsValue(r) == n
    ensures r[0] != '0' || n == 0
  {
    if n < 10 then [DigitChar(n)]
    else
      var p := NatToString(n / 10);
      var r := p + [DigitChar(n % 10)];
      assert r[..|r| - 1] == p;
      r
  }
}
