/** The two normalisers of `src/utils/formatters.js`: the tariff-code shape and the trade-bloc test. */
module Formatters {
  import opened JsStrings
  import opened Cells

  const TenZeros: string := "0000000000"

  /** The canonical `DDDD.DD.DDDD` shape: twelve characters, full stops at 4 and 7 and nowhere else. */
  predicate IsCanonicalHts(r: string) {
    |r| == 12 && r[4] == '.' && r[7] == '.' &&
    forall i :: 0 <= i < 12 && i != 4 && i != 7 ==> r[i] != '.'
  }

  /**
   * The ten code characters of a value's text: full stops removed (the `.split(".")[0]` that
   * follows is then a no-op), padded on the right with '0' to ten and cut to ten.
   * Characters other than '.' (a hyphen, a space) are kept.
   */
  function TenDigits(text: string): (d: string)
    ensures |d| == 10
    ensures forall i :: 0 <= i < 10 ==> d[i] != '.'
    ensures d == (RemoveDots(text) + TenZeros)[..10]
  {
    var cleaned := RemoveDots(text);
    var padded := PadEnd(cleaned, 10, '0');
    assert padded[..10] == (cleaned + TenZeros)[..10] by {
      forall i | 0 <= i < 10 ensures padded[i] == (cleaned + TenZeros)[i] {
        if i < |cleaned| {
          assert padded[..|cleaned|] == cleaned;
          assert padded[i] == padded[..|cleaned|][i];
        }
      }
    }
    padded[..10]
  }

  /** Groups ten characters as 4, 2 and 4, separated by full stops. */
  function Group(d: string): string
    requires |d| == 10
  {
    d[..4] + "." + d[4..6] + "." + d[6..10]
  }

  /**
   * `formatHTSUS`: a falsy value gives ""; any other value is rendered with `String`,
   * reduced to ten code characters and grouped as `DDDD.DD.DDDD`.
   */
  function FormatHTSUS(v: Cell): (r: string)
    ensures !Truthy(v) ==> r == ""
    ensures Truthy(v) ==> IsCanonicalHts(r)
    ensures Truthy(v) ==> RemoveDots(r) == (RemoveDots(Text(v)) + TenZeros)[..10]
  {
    if !Truthy(v) then ""
    else
      var d := TenDigits(Text(v));
      var r := Group(d);
      GroupRemoveDots(d);
      r
  }

  lemma GroupRemoveDots(d: string)
    requires |d| == 10
    requires forall i :: 0 <= i < 10 ==> d[i] != '.'
    ensures RemoveDots(Group(d)) == d
  {
    var a, b, c := d[..4], d[4..6], d[6..10];
    assert Group(d) == a + "." + (b + "." + c);
    RemoveDotsAppend(a + ".", b + "." + c);
    RemoveDotsAppend(a, ".");
    RemoveDotsAppend(b + ".", c);
    RemoveDotsAppend(b, ".");
    assert RemoveDots(".") == [];
    RemoveDotsNoDots(a);
    RemoveDotsNoDots(b);
    RemoveDotsNoDots(c);
    assert a + b + c == d;
  }

  /** Formatting an already formatted code gives it back unchanged. */
  lemma FormatHTSUSIdempotent(v: Cell)
    ensures FormatHTSUS(Str(FormatHTSUS(v))) == FormatHTSUS(v)
  {
    var r := FormatHTSUS(v);
    if Truthy(v) {
      var d := TenDigits(Text(v));
      assert r == Group(d);
      GroupRemoveDots(d);
      assert TenDigits(r) == d;
    }
  }

  /** A six-digit heading and subheading is padded with zeros: "123456" gives "1234.56.0000". */
  lemma FormatHTSUSPadsShortCode()
    ensures FormatHTSUS(Str("123456")) == "1234.56.0000"
  {
    RemoveDotsNoDots("123456");
    var d := TenDigits("123456");
    assert d == "1234560000";
    assert Group(d) == "1234.56.0000";
    assert FormatHTSUS(Str("123456")) == Group(TenDigits(Text(Str("123456"))));
  }

  /** An already canonical code is its own format: "1234.56.7890" gives itself. */
  lemma FormatHTSUSCanonicalExample()
    ensures FormatHTSUS(Str("1234.56.7890")) == "1234.56.7890"
  {
    assert "1234.56.7890" == Group("1234567890");
    GroupRemoveDots("1234567890");
  }

  /** Only full stops are stripped: a hyphen stays among the ten code characters. */
  lemma FormatHTSUSKeepsHyphen()
    ensures FormatHTSUS(Str("12-34")) == "12-3.40.0000"
  {
    RemoveDotsNoDots("12-34");
    var d := TenDigits("12-34");
    assert d == "12-3400000";
    assert Group(d) == "12-3.40.0000";
    assert FormatHTSUS(Str("12-34")) == Group(TenDigits(Text(Str("12-34"))));
  }

  /** Falsy values (the empty string, `undefined`, the number 0) give the empty string. */
  lemma FormatHTSUSFalsyExamples()
    ensures FormatHTSUS(Str("")) == "" && FormatHTSUS(Empty) == "" && FormatHTSUS(Num(0.0, "0")) == ""
  {
  }

  /** The members of the trade bloc, as codes and as names. */
  const UsmcaCountries: seq<string> := ["MX", "US", "CA", "MEXICO", "USA", "CANADA"]

  /** `list.includes(s)`. */
  predicate Includes(list: seq<string>, s: string) {
    list != [] && (list[0] == s || Includes(list[1..], s))
  }

  lemma {:induction false} IncludesIsMembership(list: seq<string>, s: string)
    ensures Includes(list, s) <==> s in list
  {
    if list != [] {
      IncludesIsMembership(list[1..], s);
      assert list == [list[0]] + list[1..];
    }
  }

  /** `isUSMCACountry`: membership of the trimmed, upper-cased text. */
  predicate IsUSMCACountry(country: string) {
    Includes(UsmcaCountries, ToUpper(Trim(country)))
  }

  /** A country belongs to the bloc exactly when its trimmed, upper-cased text is one of the six names. */
  lemma IsUSMCACountryIsMembership(country: string)
    ensures IsUSMCACountry(country) <==> ToUpper(Trim(country)) in UsmcaCountries
  {
    IncludesIsMembership(UsmcaCountries, ToUpper(Trim(country)));
  }

  /** Two spellings that differ only in letter case are classified alike. */
  lemma IsUSMCACountryIgnoresCase(a: string, b: string)
    requires ToUpper(a) == ToUpper(b)
    ensures IsUSMCACountry(a) == IsUSMCACountry(b)
  {
    TrimUpperCommute(a);
    TrimUpperCommute(b);
  }

  /** Surrounding white space does not change the classification. */
  lemma IsUSMCACountryIgnoresPadding(p: string, country: string, q: string)
    requires AllWhitespace(p) && AllWhitespace(q)
    ensures IsUSMCACountry(p + country + q) == IsUSMCACountry(country)
  {
    TrimIgnoresPadding(p, country, q);
  }
}
