/** Text formatting codes (New/Shared/FontFormat.cs): seventeen formats,
    each a colour and a one-character code, registered by code in
    construction order. */
module FontFormats {
  import Components

  /** A format: its ARGB colour `Color` and its code `_code`, a `uint`
      holding the code character's value. */
  datatype FontFormat = FontFormat(color: Components.UInt, code: char)

  const Black := FontFormat(0, '0')
  const DarkBlue := FontFormat(0xff0000aa, '1')
  const DarkGreen := FontFormat(0xff00aa00, '2')
  const DarkCyan := FontFormat(0xff00aaaa, '3')
  const DarkRed := FontFormat(0xffaa0000, '4')
  const DarkPurple := FontFormat(0xffaa00aa, '5')
  const Gold := FontFormat(0xffffaa00, '6')
  const Gray := FontFormat(0xffaaaaaa, '7')
  const DarkGray := FontFormat(0xff555555, '8')
  const Blue := FontFormat(0xff5555ff, '9')
  const Green := FontFormat(0xff55ff55, 'a')
  const Cyan := FontFormat(0xff55ffff, 'b')
  const Red := FontFormat(0xffff5555, 'c')
  const Purple := FontFormat(0xffff55ff, 'd')
  const Yellow := FontFormat(0xffffff55, 'e')
  const White := FontFormat(0xffffffff, 'f')
  const Reset := FontFormat(0, 'r')

  /** The formats in the order their static fields are initialised. */
  const All: seq<FontFormat> := [Black, DarkBlue, DarkGreen, DarkCyan, DarkRed, DarkPurple, Gold, Gray,
                                 DarkGray, Blue, Green, Cyan, Red, Purple, Yellow, White, Reset]

  /** `VALUES` after the constructors of `fs` have run in order: each one
      stores itself under its code, replacing an earlier entry. */
  function Registry(fs: seq<FontFormat>): map<char, FontFormat>
    decreases |fs|
  {
    if |fs| == 0 then map[]
    else Registry(fs[..|fs| - 1])[fs[|fs| - 1].code := fs[|fs| - 1]]
  }

  /** `VALUES` once the class is initialised. */
  function Values(): map<char, FontFormat> {
    Registry(All)
  }

  /** The registry holds exactly the codes constructed, each mapped to the
      LAST format constructed with it. */
  lemma {:induction false} RegistryLast(fs: seq<FontFormat>, c: char)
    ensures c in Registry(fs) <==> exists i | 0 <= i < |fs| :: fs[i].code == c
    ensures c in Registry(fs) ==> exists i | 0 <= i < |fs| ::
      Registry(fs)[c] == fs[i] && fs[i].code == c && forall j | i < j < |fs| :: fs[j].code != c
    decreases |fs|
  {
    if |fs| > 0 {
      var n := |fs| - 1;
      RegistryLast(fs[..n], c);
      assert forall i | 0 <= i < n :: fs[..n][i] == fs[i];
    }
  }

  /** The seventeen codes are pairwise distinct. */
  lemma CodesDistinct()
    ensures |All| == 17
    ensures forall i, j | 0 <= i < j < |All| :: All[i].code != All[j].code
  {
  }

  /** `VALUES` maps each of `0`-`9`, `a`-`f` and `r` to the format built
      with that code, and holds no other key. */
  lemma ValuesByCode(c: char)
    ensures c in Values() <==> c in "0123456789abcdefr"
    ensures forall i | 0 <= i < |All| :: All[i].code in Values() && Values()[All[i].code] == All[i]
  {
    CodesDistinct();
    RegistryLast(All, c);
    assert forall k | 0 <= k < 17 :: All[k].code == "0123456789abcdefr"[k];
    forall i | 0 <= i < |All|
      ensures All[i].code in Values() && Values()[All[i].code] == All[i]
    {
      RegistryLast(All, All[i].code);
    }
  }

  /** `BLACK` and `RESET` carry the same colour, so the colour alone does
      not identify a format. */
  lemma BlackResetShareColor()
    ensures Black.color == Reset.color == 0 && Black != Reset
  {
  }

  /** The section sign that starts every format string. */
  const Section: char := '\U{00A7}'

  function DigitChar(d: nat): (c: char)
    requires d < 10
    ensures '0' <= c <= '9' && (c as int) - ('0' as int) == d
  {
    (('0' as int) + d) as char
  }

  /** The decimal text of `n`, with no leading zero. */
  function Decimal(n: nat): (s: string)
    ensures |s| > 0 && forall k | 0 <= k < |s| :: '0' <= s[k] <= '9'
    ensures |s| > 1 ==> s[0] != '0'
    decreases n
  {
    if n < 10 then [DigitChar(n)] else Decimal(n / 10) + [DigitChar(n % 10)]
  }

  /** The number a string of decimal digits denotes. */
  function DigitsValue(s: string): nat
    requires forall k | 0 <= k < |s| :: '0' <= s[k] <= '9'
    decreases |s|
  {
    if |s| == 0 then 0 else 10 * DigitsValue(s[..|s| - 1]) + ((s[|s| - 1] as int) - ('0' as int))
  }

  /** Reading the decimal text of `n` back gives `n`; so two formats with
      distinct codes never print alike. */
  lemma {:induction false} DecimalRoundTrip(n: nat)
    ensures DigitsValue(Decimal(n)) == n
    decreases n
  {
    if n >= 10 {
      DecimalRoundTrip(n / 10);
      var s := Decimal(n);
      assert s[..|s| - 1] == Decimal(n / 10);
    }
  }

  /** `ToString()`: the section sign followed by `_code` printed as a
      number, since `_code` is a `uint` and not a `char`. */
  function ToString(f: FontFormat): (s: string)
    ensures |s| >= 2 && s[0] == Section
    ensures forall k | 1 <= k < |s| :: '0' <= s[k] <= '9'
  {
    [Section] + Decimal(f.code as nat)
  }

  /** The strings of the formats: `BLACK` prints as the section sign and
      `48`, not `0`; distinct codes print distinctly. */
  lemma ToStringByValue(f: FontFormat, g: FontFormat)
    ensures ToString(Black) == [Section] + "48"
    ensures ToString(Reset) == [Section] + "114"
    ensures f.code != g.code ==> ToString(f) != ToString(g)
  {
    assert Decimal(48) == "48";
    assert Decimal(114) == Decimal(11) + "4" == "114";
    if ToString(f) == ToString(g) {
      assert Decimal(f.code as nat) == ToString(f)[1..] == ToString(g)[1..] == Decimal(g.code as nat);
      DecimalRoundTrip(f.code as nat);
      DecimalRoundTrip(g.code as nat);
    }
  }

  /** Read back through `VALUES` by its second character, as a format code
      is meant to be read, the string `BLACK` prints names `DARKRED`. */
  lemma ToStringMisreads()
    ensures ToString(Black)[1] in Values() && Values()[ToString(Black)[1]] == DarkRed
  {
    ToStringByValue(Black, Black);
    ValuesByCode('4');
    assert All[4] == DarkRed;
  }

  /** `ToString()` as intended: the section sign followed by the code
      character itself. */
  function ToStringIntended(f: FontFormat): (s: string)
    ensures |s| == 2 && s[0] == Section
  {
    [Section, f.code]
  }

  /** Every one of the seventeen formats prints as intended to a string
      whose code character `VALUES` maps back to that very format, so
      distinct formats print distinctly. */
  lemma ToStringIntendedReadsBack(i: nat)
    requires i < |All|
    ensures ToStringIntended(All[i])[1] in Values() && Values()[ToStringIntended(All[i])[1]] == All[i]
    ensures forall j | 0 <= j < |All| && j != i :: ToStringIntended(All[j]) != ToStringIntended(All[i])
  {
    ValuesByCode(All[i].code);
    CodesDistinct();
    forall j | 0 <= j < |All| && j != i
      ensures ToStringIntended(All[j]) != ToStringIntended(All[i])
    {
      assert ToStringIntended(All[j])[1] == All[j].code;
    }
  }
}
