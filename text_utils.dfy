/** The text filters of utils/text_utils.py: the separator-swapping `format_currency`, the
    `format_percentage` replace chain, and the accent stripper `remove_accents`. */
module TextUtils {
  import opened Seqs

  /** The Unicode-database operations the program takes from Python (`str.lower`, `str.title`,
      `str.upper`, `str.isspace`, `unicodedata.normalize('NFKD', _)`, `unicodedata.combining`).
      They are foreign, so the model receives them as values and assumes nothing about them. */
  datatype Unicode = Unicode(
    lower: string -> string,
    title: string -> string,
    upper: string -> string,
    isSpace: char -> bool,
    nfkd: string -> string,
    combining: char -> bool)

  /** `s.replace(from, to)` for one-character arguments. */
  function Replace(s: string, from: char, to: char): string {
    seq(|s|, i requires 0 <= i < |s| => if s[i] == from then to else s[i])
  }

  /** The chain `.replace(',', 'X').replace('.', ',').replace('X', '.')`. */
  function SwapSeparators(s: string): string {
    Replace(Replace(Replace(s, ',', 'X'), '.', ','), 'X', '.')
  }

  /** On text without 'X' the chain swaps ',' and '.' and leaves every other character and the
      length alone. */
  lemma SwapSeparatorsSwaps(s: string)
    requires 'X' !in s
    ensures |SwapSeparators(s)| == |s|
    ensures forall i :: 0 <= i < |s| ==>
      SwapSeparators(s)[i] == (if s[i] == ',' then '.' else if s[i] == '.' then ',' else s[i])
  {
    var a := Replace(s, ',', 'X');
    var b := Replace(a, '.', ',');
    forall i | 0 <= i < |s|
      ensures SwapSeparators(s)[i] == (if s[i] == ',' then '.' else if s[i] == '.' then ',' else s[i])
    {
      assert s[i] != 'X' by { assert s[i] in s; }
      assert a[i] == (if s[i] == ',' then 'X' else s[i]);
      assert b[i] == (if a[i] == '.' then ',' else a[i]);
    }
  }

  /** On text without 'X' the separator swap undoes itself. */
  lemma SwapSeparatorsInvolution(s: string)
    requires 'X' !in s
    ensures 'X' !in SwapSeparators(s)
    ensures SwapSeparators(SwapSeparators(s)) == s
  {
    SwapSeparatorsSwaps(s);
    var t := SwapSeparators(s);
    assert 'X' !in t by {
      forall i | 0 <= i < |t| ensures t[i] != 'X' {
        assert s[i] in s;
      }
    }
    SwapSeparatorsSwaps(t);
  }

  // ---- Python's `{:,.2f}` on an amount already rounded to hundredths (integer cents) ----

  predicate IsDigit(c: char) {
    '0' <= c <= '9'
  }

  function Digit(d: nat): (c: char)
    requires d < 10
    ensures IsDigit(c)
  {
    (48 + d) as char
  }

  /** `str(n)` for a natural number. */
  function NatText(n: nat): (r: string)
    ensures |r| >= 1 && forall i :: 0 <= i < |r| ==> IsDigit(r[i])
  {
    if n < 10 then [Digit(n)] else NatText(n / 10) + [Digit(n % 10)]
  }

  function Pad3(n: nat): (r: string)
    requires n < 1000
    ensures |r| == 3 && forall i :: 0 <= i < 3 ==> IsDigit(r[i])
  {
    [Digit(n / 100), Digit(n / 10 % 10), Digit(n % 10)]
  }

  /** `{:,}` of a natural number: digits in groups of three separated by ','. */
  function Grouped(n: nat): (r: string)
    ensures |r| >= 1
    ensures forall i :: 0 <= i < |r| ==> IsDigit(r[i]) || r[i] == ','
  {
    if n < 1000 then NatText(n) else Grouped(n / 1000) + "," + Pad3(n % 1000)
  }

  /** `{:,.2f}` of `cents / 100`: optional '-', grouped integer part, '.', two decimals. */
  function FixedTwo(cents: int): string {
    var n := if cents < 0 then -cents else cents;
    (if cents < 0 then "-" else "") + Grouped(n / 100) + "." + [Digit(n % 100 / 10), Digit(n % 10)]
  }

  /** The fixed-point text ends in '.' and two digits; before that it holds only digits, ','
      and a leading '-'. */
  lemma FixedTwoShape(cents: int)
    ensures var r := FixedTwo(cents);
      && |r| >= 4
      && r[|r| - 3] == '.' && IsDigit(r[|r| - 2]) && IsDigit(r[|r| - 1])
      && (forall i :: 0 <= i < |r| ==> IsDigit(r[i]) || r[i] == ',' || r[i] == '.' || r[i] == '-')
      && (forall i :: 0 <= i < |r| - 3 ==> r[i] != '.')
      && (forall i :: 0 < i < |r| ==> r[i] != '-')
      && (r[0] == '-' <==> cents < 0)
  {
    var n := if cents < 0 then -cents else cents;
    var sign := if cents < 0 then "-" else "";
    var g := Grouped(n / 100);
    var r := FixedTwo(cents);
    assert r == sign + g + "." + [Digit(n % 100 / 10), Digit(n % 10)];
    assert forall i :: 0 <= i < |r| - 3 ==> r[i] == (sign + g)[i];
    assert forall i :: 0 <= i < |g| ==> r[|sign| + i] == g[i];
  }

  lemma FixedTwoHasNoX(cents: int)
    ensures 'X' !in FixedTwo(cents)
  {
    var r := FixedTwo(cents);
    FixedTwoShape(cents);
    forall i | 0 <= i < |r| ensures r[i] != 'X' { }
  }

  /** `format_currency`: `f'R$ {value:,.2f}'` with its separators swapped. */
  function FormatCurrency(cents: int): string {
    SwapSeparators("R$ " + FixedTwo(cents))
  }

  /** The currency text starts with "R$ ", then carries the number with ',' as the decimal
      separator and '.' between thousands groups. */
  lemma FormatCurrencyShape(cents: int)
    ensures var r, f := FormatCurrency(cents), FixedTwo(cents);
      && |r| == 3 + |f|
      && r[..3] == "R$ "
      && r[|r| - 3] == ','
      && (forall i :: 3 <= i < |r| - 3 ==> r[i] != ',')
      && (forall i :: 3 <= i < |r| ==> r[i] == (if f[i - 3] == ',' then '.' else if f[i - 3] == '.' then ',' else f[i - 3]))
  {
    var f := FixedTwo(cents);
    var s := "R$ " + f;
    FixedTwoShape(cents);
    FixedTwoHasNoX(cents);
    assert 'X' !in s by {
      forall i | 0 <= i < |s| ensures s[i] != 'X' {
        if i >= 3 { assert s[i] == f[i - 3]; assert f[i - 3] in f; }
      }
    }
    SwapSeparatorsSwaps(s);
    var r := FormatCurrency(cents);
    forall i | 3 <= i < |r| ensures r[i] == (if f[i - 3] == ',' then '.' else if f[i - 3] == '.' then ',' else f[i - 3]) {
      assert s[i] == f[i - 3];
    }
  }

  /** `format_percentage` as written: `f'{value:,.2f}%'.replace(',', 'X').replace('X', '.')`. */
  function FormatPercentage(cents: int): string {
    Replace(Replace(FixedTwo(cents) + "%", ',', 'X'), 'X', '.')
  }

  /** The percentage text ends with '%' and contains no ','; every ',' of the number became '.',
      and every other character, the decimal point included, is unchanged. */
  lemma FormatPercentageShape(cents: int)
    ensures var r, f := FormatPercentage(cents), FixedTwo(cents);
      && |r| == |f| + 1
      && r[|r| - 1] == '%'
      && ',' !in r
      && (forall i :: 0 <= i < |f| ==> r[i] == (if f[i] == ',' then '.' else f[i]))
  {
    var f := FixedTwo(cents);
    var s := f + "%";
    var a := Replace(s, ',', 'X');
    var r := FormatPercentage(cents);
    FixedTwoHasNoX(cents);
    forall i | 0 <= i < |s| ensures r[i] == (if s[i] == ',' then '.' else s[i]) && r[i] != ',' {
      if i < |f| { assert s[i] == f[i]; assert f[i] in f; }
      assert a[i] == (if s[i] == ',' then 'X' else s[i]);
    }
  }

  /** The percentage text as written uses '.' both between thousands groups and before the
      decimals: 1234.56 becomes "1.234.56%". */
  lemma FormatPercentageAmbiguous()
    ensures FormatPercentage(123456) == "1.234.56%"
  {
    assert FixedTwo(123456) == "1,234.56" by {
      assert Grouped(1234) == "1,234" by {
        assert NatText(1) == "1";
        assert Pad3(234) == "234";
      }
    }
  }

  /** As written, 55.43 is shown as "55.43%". */
  lemma FormatPercentageExample()
    ensures FormatPercentage(5543) == "55.43%"
  {
    assert FixedTwo(5543) == "55.43" by {
      assert NatText(55) == "55" by { assert NatText(5) == "5"; }
    }
  }

  /** The percentage text with the same separators as the currency text: the number's
      separators swapped, then '%'. */
  function FormatPercentageBr(cents: int): string {
    SwapSeparators(FixedTwo(cents)) + "%"
  }

  /** The corrected percentage text ends with '%', has ',' as its only decimal separator just
      before the two decimals, and '.' only between thousands groups. */
  lemma FormatPercentageBrShape(cents: int)
    ensures var r, f := FormatPercentageBr(cents), FixedTwo(cents);
      && |r| == |f| + 1
      && r[|r| - 1] == '%'
      && r[|r| - 4] == ','
      && (forall i :: 0 <= i < |r| - 4 ==> r[i] != ',')
      && (forall i :: 0 <= i < |f| ==> (r[i] == '.' <==> f[i] == ','))
  {
    FixedTwoShape(cents);
    FixedTwoHasNoX(cents);
    SwapSeparatorsSwaps(FixedTwo(cents));
  }

  lemma FormatPercentageBrExample()
    ensures FormatPercentageBr(5543) == "55,43%"
  {
    assert FixedTwo(5543) == "55.43" by {
      assert NatText(55) == "55" by { assert NatText(5) == "5"; }
    }
    assert SwapSeparators("55.43") == "55,43" by {
      assert Replace("55.43", ',', 'X') == "55.43";
      assert Replace("55.43", '.', ',') == "55,43";
    }
  }

  lemma FormatCurrencyExample()
    ensures FormatCurrency(123450) == "R$ 1.234,50"
  {
    assert Grouped(1234) == "1,234" by {
      assert NatText(1) == "1";
      assert Pad3(234) == "234";
    }
    assert FixedTwo(123450) == "1,234.50";
  }

  // ---- remove_accents ----

  /** `''.join([c for c in unicodedata.normalize('NFKD', s) if not unicodedata.combining(c)])`. */
  function RemoveAccents(u: Unicode, s: string): string {
    Filter(u.nfkd(s), (c: char) => !u.combining(c))
  }

  /** The result holds no combining character, and it is the in-order subsequence of the NFKD
      form at exactly the positions of its non-combining characters. */
  lemma RemoveAccentsSubsequence(u: Unicode, s: string)
    ensures forall i :: 0 <= i < |RemoveAccents(u, s)| ==> !u.combining(RemoveAccents(u, s)[i])
    ensures var d, r, idx := u.nfkd(s), RemoveAccents(u, s), KeptIndices(u.nfkd(s), (c: char) => !u.combining(c), 0);
      && |idx| == |r|
      && (forall k :: 0 <= k < |idx| ==> idx[k] < |d| && d[idx[k]] == r[k])
      && Increasing(idx)
      && (forall i :: 0 <= i < |d| ==> (i in idx <==> !u.combining(d[i])))
  {
    var d := u.nfkd(s);
    assert d[0..] == d;
    FilterIsSubsequence(d, (c: char) => !u.combining(c), 0);
    KeptIndicesIncrease(d, (c: char) => !u.combining(c), 0);
    KeptIndicesExact(d, (c: char) => !u.combining(c), 0);
    var r := RemoveAccents(u, s);
    forall i | 0 <= i < |r| ensures !u.combining(r[i]) {
      assert r[i] in r;
    }
  }

  /** Dropping combining characters a second time removes nothing more. */
  lemma CombiningFilterIdempotent(u: Unicode, s: string)
    ensures Filter(RemoveAccents(u, s), (c: char) => !u.combining(c)) == RemoveAccents(u, s)
  {
    FilterIdempotent(u.nfkd(s), (c: char) => !u.combining(c));
  }
}
