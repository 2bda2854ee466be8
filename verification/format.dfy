/** The description string `execute` stores in the property:
    `<tag>-<distance>-g<abbrev>` when a tag was found, the abbreviated id
    alone otherwise. */
module Format {
  import opened Wrappers

  /** What the string describes. The abbreviation is the target's id cut to
      the configured length, taken as given. */
  datatype Description =
    | Tagged(tag: string, distance: nat, abbrev: string)
    | Untagged(abbrev: string)

  predicate IsDigit(c: char) {
    '0' <= c <= '9'
  }

  predicate IsDigits(s: string) {
    forall k :: 0 <= k < |s| ==> IsDigit(s[k])
  }

  /** A decimal numeral as Java prints a non-negative int: no sign, and no
      leading zero unless the number is 0. */
  predicate IsNumeral(s: string) {
    |s| > 0 && IsDigits(s) && (s[0] == '0' ==> |s| == 1)
  }

  function DigitChar(d: nat): (c: char)
    requires d < 10
    ensures IsDigit(c)
  {
    ['0', '1', '2', '3', '4', '5', '6', '7', '8', '9'][d]
  }

  function DigitValue(c: char): (d: nat)
    requires IsDigit(c)
    ensures d < 10 && DigitChar(d) == c
  {
    (c as int - '0' as int) as nat
  }

  /** The value a string of digits denotes. */
  function ValueOf(s: string): nat
    requires IsDigits(s)
  {
    if s == [] then 0 else ValueOf(s[..|s| - 1]) * 10 + DigitValue(s[|s| - 1])
  }

  /** The decimal numeral of `n` (what `StringBuilder.append(int)` writes). */
  function Decimal(n: nat): (s: string)
    ensures IsNumeral(s)
  {
    if n < 10 then [DigitChar(n)]
    else
      var init := Decimal(n / 10);
      assert init[0] != '0';
      init + [DigitChar(n % 10)]
  }

  lemma {:induction false} DecimalValue(n: nat)
    ensures ValueOf(Decimal(n)) == n
  {
    if n >= 10 {
      var s := Decimal(n);
      assert s[..|s| - 1] == Decimal(n / 10);
      DecimalValue(n / 10);
    }
  }

  /** The leading digit bounds a numeral's value from below. */
  lemma {:induction false} ValueOfLeading(s: string)
    requires |s| > 0 && IsDigits(s)
    ensures ValueOf(s) >= DigitValue(s[0])
  {
    if |s| > 1 {
      ValueOfLeading(s[..|s| - 1]);
    }
  }

  lemma {:induction false} ValueDecimal(s: string)
    requires IsNumeral(s)
    ensures Decimal(ValueOf(s)) == s
  {
    var init := s[..|s| - 1];
    if |init| > 0 {
      assert IsNumeral(init);
      ValueOfLeading(init);
      ValueDecimal(init);
      assert s == init + [s[|s| - 1]];
    }
  }

  /** The string `execute` builds for a description: for a tag, its name,
      a `-`, the numeral of the distance, `-g` and the abbreviation;
      otherwise the abbreviation alone. */
  function Render(d: Description): (s: string)
    ensures d.Untagged? ==> s == d.abbrev
    ensures d.Tagged? ==> && s == d.tag + "-" + Decimal(d.distance) + "-g" + d.abbrev
                          && ValueOf(Decimal(d.distance)) == d.distance
  {
    match d
    case Tagged(tag, distance, abbrev) =>
      DecimalValue(distance);
      tag + "-" + Decimal(distance) + "-g" + abbrev
    case Untagged(abbrev) => abbrev
  }

  /** The position of the last `c` in `s`, if any. */
  function LastIndexOf(s: string, c: char): (r: Option<nat>)
    ensures r.None? <==> c !in s
    ensures r.Some? ==> r.value < |s| && s[r.value] == c && c !in s[r.value + 1..]
  {
    if s == [] then None
    else if s[|s| - 1] == c then Some(|s| - 1)
    else
      var r := LastIndexOf(s[..|s| - 1], c);
      assert s == s[..|s| - 1] + [s[|s| - 1]];
      if r.Some? then
        assert s[r.value + 1..] == s[..|s| - 1][r.value + 1..] + [s[|s| - 1]];
        r
      else
        r
  }

  /** Reads a description back: the last `-` must be followed by `g` and the
      abbreviation, the `-` before it by the numeral; a string with no `-`
      is an abbreviation alone. */
  function Parse(s: string): Option<Description> {
    match LastIndexOf(s, '-')
    case None => Some(Untagged(s))
    case Some(i) =>
      if i + 1 < |s| && s[i + 1] == 'g' then
        var head, abbrev := s[..i], s[i + 2..];
        match LastIndexOf(head, '-')
        case None => None
        case Some(j) =>
          var numeral := head[j + 1..];
          if IsNumeral(numeral) then Some(Tagged(head[..j], ValueOf(numeral), abbrev)) else None
      else None
  }

  /** An abbreviated id is hexadecimal, so it never holds a `-`. */
  predicate WellFormed(d: Description) {
    '-' !in d.abbrev
  }

  lemma NumeralHasNoDash(s: string)
    requires IsDigits(s)
    ensures '-' !in s
  {
    forall k | 0 <= k < |s|
      ensures s[k] != '-'
    {
      assert IsDigit(s[k]);
    }
  }

  /** Reading back a rendered description gives the description. */
  lemma ParseRender(d: Description)
    requires WellFormed(d)
    ensures Parse(Render(d)) == Some(d)
  {
    match d
    case Untagged(abbrev) =>
    case Tagged(tag, distance, abbrev) =>
      var numeral := Decimal(distance);
      OuterDash(tag + "-" + numeral, abbrev);
      NumeralHasNoDash(numeral);
      InnerDash(tag, numeral);
      DecimalValue(distance);
  }

  /** In `head-g<abbrev>` with no `-` in the abbreviation, the last `-` is the one before `g`. */
  lemma OuterDash(head: string, abbrev: string)
    requires '-' !in abbrev
    ensures var s := head + "-g" + abbrev;
      LastIndexOf(s, '-') == Some(|head|) && s[|head| + 1] == 'g' && s[..|head|] == head && s[|head| + 2..] == abbrev
  {
    var s := head + "-g" + abbrev;
    assert s[|head| + 1..] == "g" + abbrev;
    LastIndexUnique(s, '-', |head|);
  }

  /** In `tag-<numeral>` the last `-` is the one before the numeral. */
  lemma InnerDash(tag: string, numeral: string)
    requires '-' !in numeral
    ensures var head := tag + "-" + numeral;
      LastIndexOf(head, '-') == Some(|tag|) && head[..|tag|] == tag && head[|tag| + 1..] == numeral
  {
    var head := tag + "-" + numeral;
    assert head[|tag| + 1..] == numeral;
    LastIndexUnique(head, '-', |tag|);
  }

  /** The last occurrence is the one with nothing of its kind after it. */
  lemma LastIndexUnique(s: string, c: char, i: nat)
    requires i < |s| && s[i] == c && c !in s[i + 1..]
    ensures LastIndexOf(s, c) == Some(i)
  {
    var r := LastIndexOf(s, c).value;
    NothingAfter(s, c, r);
    NothingAfter(s, c, i);
  }

  lemma NothingAfter(s: string, c: char, i: nat)
    requires i < |s| && c !in s[i + 1..]
    ensures forall k :: i < k < |s| ==> s[k] != c
  {
    forall k | i < k < |s|
      ensures s[k] != c
    {
      assert s[k] == s[i + 1..][k - i - 1];
    }
  }

  /** Every string that reads back renders to itself, and what it reads to
      is well formed. */
  lemma RenderParse(s: string)
    requires Parse(s).Some?
    ensures WellFormed(Parse(s).value) && Render(Parse(s).value) == s
  {
    match LastIndexOf(s, '-')
    case None =>
    case Some(i) =>
      var head := s[..i];
      var j := LastIndexOf(head, '-').value;
      var numeral := head[j + 1..];
      ValueDecimal(numeral);
      Reassemble(s, i, j);
      assert s[i + 2..] == s[i + 1..][1..];
  }

  /** Cutting a string at two dashes and gluing it back together. */
  lemma Reassemble(s: string, i: nat, j: nat)
    requires j < i && i + 1 < |s| && s[i] == '-' && s[i + 1] == 'g' && s[j] == '-'
    ensures s == s[..i][..j] + "-" + s[..i][j + 1..] + "-g" + s[i + 2..]
  {
    assert s[..i] == s[..i][..j] + "-" + s[..i][j + 1..];
    assert s == s[..i] + "-g" + s[i + 2..];
  }
}
