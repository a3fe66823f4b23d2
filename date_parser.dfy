/**
 * The international date normaliser: a transliteration pass over a fixed
 * character table, a direct parse, and, when that fails, a token-by-token
 * rewrite of month names and filler words before a second parse.
 *
 * The platform's free-form date parser (`strtotime`), its Unicode lower-casing
 * (`mb_strtolower`) and its word-boundary split (`preg_split('/\b/u', ...)`)
 * are not modelled; they are the fields of a Platform value.
 */
module DateParser {
  import opened Wrappers
  import Text

  // ---------------------------------------------------------------------------
  // The transliteration table

  /**
   * The replacement the transliteration table gives a character, or None when
   * the table does not list it. Every key is a single character; the source
   * lists 'ý' twice with the same replacement, so it appears here once.
   */
  function Replacement(c: char): Option<string>
  {
    match c
    case 'á' => Some("a") case 'â' => Some("a") case 'à' => Some("a") case 'å' => Some("a") case 'ä' => Some("a") case 'ă' => Some("a")
    case 'ð' => Some("o") case 'é' => Some("e") case 'ê' => Some("e") case 'è' => Some("e") case 'ë' => Some("e")
    case 'í' => Some("i") case 'î' => Some("i") case 'ì' => Some("i") case 'ï' => Some("i")
    case 'ó' => Some("o") case 'ô' => Some("o") case 'ò' => Some("o") case 'ø' => Some("o") case 'õ' => Some("o") case 'ö' => Some("o")
    case 'ú' => Some("u") case 'û' => Some("u") case 'ù' => Some("u") case 'ü' => Some("u")
    case 'ç' => Some("c")
    case 'ş' => Some("s")
    case 'ţ' => Some("t")
    case 'Š' => Some("S") case 'š' => Some("s") case 'Ð' => Some("Dj") case 'Ž' => Some("Z") case 'ž' => Some("z")
    case 'À' => Some("A") case 'Á' => Some("A") case 'Â' => Some("A") case 'Ã' => Some("A") case 'Ä' => Some("A")
    case 'Å' => Some("A") case 'Æ' => Some("Ae") case 'Ç' => Some("C") case 'È' => Some("E") case 'É' => Some("E")
    case 'Ê' => Some("E") case 'Ë' => Some("E") case 'Ì' => Some("I") case 'Í' => Some("I") case 'Î' => Some("I")
    case 'Ï' => Some("I") case 'Ñ' => Some("N") case 'Ò' => Some("O") case 'Ó' => Some("O") case 'Ô' => Some("O")
    case 'Õ' => Some("O") case 'Ö' => Some("O") case 'Ø' => Some("O") case 'Ù' => Some("U") case 'Ú' => Some("U")
    case 'Û' => Some("U") case 'Ü' => Some("U") case 'Ý' => Some("Y") case 'Þ' => Some("B") case 'ß' => Some("Ss")
    case 'æ' => Some("ae")
    case 'ñ' => Some("n")
    case 'ý' => Some("y") case 'þ' => Some("b") case 'ÿ' => Some("y") case 'ƒ' => Some("f")
    case _ => None
  }

  predicate IsAscii(s: string)
  {
    forall i :: 0 <= i < |s| ==> s[i] < '\U{80}'
  }

  /** What the table says: every key is outside ASCII, every replacement is non-empty ASCII. */
  lemma ReplacementShape(c: char)
    ensures Replacement(c).Some? ==> '\U{80}' <= c
    ensures Replacement(c).Some? ==> |Replacement(c).value| >= 1 && IsAscii(Replacement(c).value)
  {
  }

  /** No replacement contains a key of the table, so replaced text is never replaced again. */
  lemma ReplacementsAreNotKeys(c: char, i: nat)
    requires Replacement(c).Some? && i < |Replacement(c).value|
    ensures Replacement(Replacement(c).value[i]).None?
  {
    ReplacementShape(c);
    ReplacementShape(Replacement(c).value[i]);
  }

  /** The text one character turns into under `strtr` with the table. */
  function TransliterateChar(c: char): string
  {
    Replacement(c).GetOr([c])
  }

  /**
   * `strtr(date, $_map)`. Since every key is one character, matching the
   * longest key first is matching this character, and replaced text is not
   * scanned again, so the pass is character by character.
   */
  function Transliterate(s: string): (r: string)
    ensures |r| >= |s|
    decreases |s|
  {
    if |s| == 0 then "" else TransliterateChar(s[0]) + Transliterate(s[1..])
  }

  lemma {:induction false} TransliterateAppend(a: string, b: string)
    ensures Transliterate(a + b) == Transliterate(a) + Transliterate(b)
    decreases |a|
  {
    if |a| == 0 {
      assert a + b == b;
    } else {
      assert (a + b)[1..] == a[1..] + b;
      TransliterateAppend(a[1..], b);
    }
  }

  /** A listed character becomes its replacement, any other character stays as it is. */
  lemma TransliterateOne(c: char)
    ensures Replacement(c).Some? ==> Transliterate([c]) == Replacement(c).value
    ensures Replacement(c).None? ==> Transliterate([c]) == [c]
  {
    assert [c][1..] == "";
  }

  /** A string none of whose characters is a key is left unchanged. */
  lemma {:induction false} TransliterateUnlisted(s: string)
    requires forall i :: 0 <= i < |s| ==> Replacement(s[i]).None?
    ensures Transliterate(s) == s
    decreases |s|
  {
    if |s| > 0 {
      TransliterateUnlisted(s[1..]);
      assert s == [s[0]] + s[1..];
    }
  }

  /** In particular plain ASCII text is left unchanged. */
  lemma TransliterateAscii(s: string)
    requires IsAscii(s)
    ensures Transliterate(s) == s
  {
    forall i | 0 <= i < |s| ensures Replacement(s[i]).None? {
      ReplacementShape(s[i]);
    }
    TransliterateUnlisted(s);
  }

  /** The output never contains a key of the table. */
  lemma {:induction false} TransliterateLeavesNoKey(s: string)
    ensures forall i :: 0 <= i < |Transliterate(s)| ==> Replacement(Transliterate(s)[i]).None?
    decreases |s|
  {
    if |s| > 0 {
      TransliterateLeavesNoKey(s[1..]);
      var head := TransliterateChar(s[0]);
      var r := Transliterate(s);
      assert r == head + Transliterate(s[1..]);
      forall i | 0 <= i < |r| ensures Replacement(r[i]).None? {
        if i < |head| {
          if Replacement(s[0]).Some? {
            ReplacementsAreNotKeys(s[0], i);
          }
        } else {
          assert r[i] == Transliterate(s[1..])[i - |head|];
        }
      }
    }
  }

  /** Transliterating twice is transliterating once. */
  lemma TransliterateIdempotent(s: string)
    ensures Transliterate(Transliterate(s)) == Transliterate(s)
  {
    TransliterateLeavesNoKey(s);
    TransliterateUnlisted(Transliterate(s));
  }

  // ---------------------------------------------------------------------------
  // The token table

  type MonthNumber = m: int | 1 <= m <= 12 witness 1

  /** A token is either removed, or replaced by the two-digit code of a month. */
  datatype Entry = Drop | Month(month: MonthNumber)

  /** The two-digit month code, "01" to "12". */
  function MonthCode(m: MonthNumber): (code: string)
    ensures |code| == 2 && Text.AllDigits(code)
  {
    [Text.DigitChar(m / 10), Text.DigitChar(m % 10)]
  }

  const MonthCodes: seq<string> := ["01", "02", "03", "04", "05", "06", "07", "08", "09", "10", "11", "12"]

  /** Every month code the table can produce is one of "01" ... "12", and month m gets the m-th. */
  lemma MonthCodeListed(m: MonthNumber)
    ensures MonthCode(m) == MonthCodes[m - 1]
  {
  }

  /** Distinct months have distinct codes. */
  lemma MonthCodeInjective(m: MonthNumber, n: MonthNumber)
    requires MonthCode(m) == MonthCode(n)
    ensures m == n
  {
    assert MonthCode(m)[0] == MonthCode(n)[0] && MonthCode(m)[1] == MonthCode(n)[1];
  }

  // The table is written in the source as one literal with a block per
  // language; each block is one function here. A key listed in several
  // blocks gets, in PHP, the value written last.

  function FillerEntry(t: string): Option<Entry>
  {
    match t
    case "." => Some(Drop) case "de" => Some(Drop) case "月" => Some(Drop) case "年" => Some(Drop) case "日" => Some(Drop)
    case _ => None
  }

  function FrenchEntry(t: string): Option<Entry>
  {
    match t
    case "janvier" => Some(Month(1)) case "fevrier" => Some(Month(2)) case "mars" => Some(Month(3))
    case "avril" => Some(Month(4)) case "mai" => Some(Month(5)) case "juin" => Some(Month(6))
    case "juillet" => Some(Month(7)) case "aout" => Some(Month(8)) case "septembre" => Some(Month(9))
    case "octobre" => Some(Month(10)) case "novembre" => Some(Month(11)) case "decembre" => Some(Month(12))
    case _ => None
  }

  function ItalianEntry(t: string): Option<Entry>
  {
    match t
    case "gennaio" => Some(Month(1)) case "febbraio" => Some(Month(2)) case "marzo" => Some(Month(3))
    case "aprile" => Some(Month(4)) case "maggio" => Some(Month(5)) case "giugno" => Some(Month(6))
    case "luglio" => Some(Month(7)) case "agosto" => Some(Month(8)) case "settembre" => Some(Month(9))
    case "ottobre" => Some(Month(10)) case "novembre" => Some(Month(11)) case "dicembre" => Some(Month(12))
    case _ => None
  }

  function GermanEntry(t: string): Option<Entry>
  {
    match t
    case "januar" => Some(Month(1)) case "februar" => Some(Month(2)) case "marz" => Some(Month(3))
    case "april" => Some(Month(4)) case "mai" => Some(Month(5)) case "juni" => Some(Month(6))
    case "juli" => Some(Month(7)) case "august" => Some(Month(8)) case "september" => Some(Month(9))
    case "oktober" => Some(Month(10)) case "november" => Some(Month(11)) case "dezember" => Some(Month(12))
    case _ => None
  }

  function SpanishEntry(t: string): Option<Entry>
  {
    match t
    case "enero" => Some(Month(1)) case "febrero" => Some(Month(2)) case "marzo" => Some(Month(3))
    case "abril" => Some(Month(4)) case "mayo" => Some(Month(5)) case "junio" => Some(Month(6))
    case "julio" => Some(Month(7)) case "agosto" => Some(Month(8)) case "septiembre" => Some(Month(9))
    case "octubre" => Some(Month(10)) case "noviembre" => Some(Month(11)) case "diciembre" => Some(Month(12))
    case _ => None
  }

  function PortugueseEntry(t: string): Option<Entry>
  {
    match t
    case "janeiro" => Some(Month(1)) case "fevereiro" => Some(Month(2)) case "março" => Some(Month(3))
    case "marco" => Some(Month(3)) case "abril" => Some(Month(4)) case "maio" => Some(Month(5))
    case "junho" => Some(Month(6)) case "julho" => Some(Month(7)) case "agosto" => Some(Month(8))
    case "setembro" => Some(Month(9)) case "outubro" => Some(Month(10)) case "novembro" => Some(Month(11))
    case "dezembro" => Some(Month(12))
    case _ => None
  }

  function RomanianEntry(t: string): Option<Entry>
  {
    match t
    case "ianuarie" => Some(Month(1)) case "gerar" => Some(Month(1))
    case "februarie" => Some(Month(2)) case "faurar" => Some(Month(2))
    case "martie" => Some(Month(3)) case "martisor" => Some(Month(3))
    case "aprilie" => Some(Month(4)) case "prier" => Some(Month(4))
    case "mai" => Some(Month(5)) case "florar" => Some(Month(5))
    case "iunie" => Some(Month(6)) case "ciresar" => Some(Month(6))
    case "iulie" => Some(Month(7)) case "cuptor" => Some(Month(7))
    case "august" => Some(Month(8)) case "gustar" => Some(Month(8))
    case "septembrie" => Some(Month(9)) case "rapciune" => Some(Month(9)) case "viniceriu" => Some(Month(9))
    case "octombrie" => Some(Month(10)) case "brumarel" => Some(Month(10))
    case "noiembrie" => Some(Month(11)) case "brumar" => Some(Month(11))
    case "decembrie" => Some(Month(12)) case "undrea" => Some(Month(12))
    case _ => None
  }

  function ChineseEntry(t: string): Option<Entry>
  {
    match t
    case "一月" => Some(Month(1)) case "二月" => Some(Month(2)) case "三月" => Some(Month(3))
    case "四月" => Some(Month(4)) case "五月" => Some(Month(5)) case "六月" => Some(Month(6))
    case "七月" => Some(Month(7)) case "八月" => Some(Month(8)) case "九月" => Some(Month(9))
    case "十月" => Some(Month(10)) case "十一月" => Some(Month(11)) case "十二月" => Some(Month(12))
    case _ => None
  }

  /** A key listed later in the literal overrides an earlier listing, as in a PHP array literal. */
  function Override(earlier: Option<Entry>, later: Option<Entry>): (r: Option<Entry>)
    ensures r.Some? <==> earlier.Some? || later.Some?
    ensures later.Some? ==> r == later
    ensures later.None? ==> r == earlier
  {
    if later.Some? then later else earlier
  }

  /** `$_tokenMap[t]`: None when the token is not a key of the table. */
  function TokenEntry(t: string): Option<Entry>
  {
    Override(Override(Override(Override(Override(Override(Override(
      FillerEntry(t), FrenchEntry(t)), ItalianEntry(t)), GermanEntry(t)),
      SpanishEntry(t)), PortugueseEntry(t)), RomanianEntry(t)), ChineseEntry(t))
  }

  /** Two listings of one token never disagree. */
  predicate Agree(a: Option<Entry>, b: Option<Entry>)
  {
    a.Some? && b.Some? ==> a == b
  }

  // The blocks share keys (mai, novembre, marzo, agosto, abril, august); the
  // lemmas below compare every block with every later one, a few at a time.

  lemma FillersAgree(t: string)
    ensures Agree(FillerEntry(t), FrenchEntry(t)) && Agree(FillerEntry(t), ItalianEntry(t))
    ensures Agree(FillerEntry(t), GermanEntry(t)) && Agree(FillerEntry(t), SpanishEntry(t))
    ensures Agree(FillerEntry(t), PortugueseEntry(t)) && Agree(FillerEntry(t), RomanianEntry(t))
    ensures Agree(FillerEntry(t), ChineseEntry(t))
  {
  }

  lemma FrenchAgreesWithItalianGermanSpanish(t: string)
    ensures Agree(FrenchEntry(t), ItalianEntry(t)) && Agree(FrenchEntry(t), GermanEntry(t))
    ensures Agree(FrenchEntry(t), SpanishEntry(t))
  {
  }

  lemma FrenchAgreesWithPortugueseRomanianChinese(t: string)
    ensures Agree(FrenchEntry(t), PortugueseEntry(t)) && Agree(FrenchEntry(t), RomanianEntry(t))
    ensures Agree(FrenchEntry(t), ChineseEntry(t))
  {
  }

  lemma ItalianAgreesWithGermanSpanishPortuguese(t: string)
    ensures Agree(ItalianEntry(t), GermanEntry(t)) && Agree(ItalianEntry(t), SpanishEntry(t))
    ensures Agree(ItalianEntry(t), PortugueseEntry(t))
  {
  }

  lemma ItalianAgreesWithRomanianChinese(t: string)
    ensures Agree(ItalianEntry(t), RomanianEntry(t)) && Agree(ItalianEntry(t), ChineseEntry(t))
  {
  }

  lemma GermanAgreesWithSpanishPortuguese(t: string)
    ensures Agree(GermanEntry(t), SpanishEntry(t)) && Agree(GermanEntry(t), PortugueseEntry(t))
  {
  }

  lemma GermanAgreesWithRomanianChinese(t: string)
    ensures Agree(GermanEntry(t), RomanianEntry(t)) && Agree(GermanEntry(t), ChineseEntry(t))
  {
  }

  lemma SpanishAgreesWithPortugueseRomanian(t: string)
    ensures Agree(SpanishEntry(t), PortugueseEntry(t)) && Agree(SpanishEntry(t), RomanianEntry(t))
  {
  }

  lemma SpanishPortugueseAgreeWithChinese(t: string)
    ensures Agree(SpanishEntry(t), ChineseEntry(t)) && Agree(PortugueseEntry(t), ChineseEntry(t))
  {
  }

  lemma PortugueseAgreesWithRomanian(t: string)
    ensures Agree(PortugueseEntry(t), RomanianEntry(t))
  {
  }

  lemma RomanianAgreesWithChinese(t: string)
    ensures Agree(RomanianEntry(t), ChineseEntry(t))
  {
  }

  /**
   * Whichever block lists a token, the table's value for it is that block's:
   * overriding repeated keys changes nothing, and the order of the blocks is
   * irrelevant.
   */
  lemma TokenEntryAgreesWithEveryBlock(t: string)
    ensures FillerEntry(t).Some? ==> TokenEntry(t) == FillerEntry(t)
    ensures FrenchEntry(t).Some? ==> TokenEntry(t) == FrenchEntry(t)
    ensures ItalianEntry(t).Some? ==> TokenEntry(t) == ItalianEntry(t)
    ensures GermanEntry(t).Some? ==> TokenEntry(t) == GermanEntry(t)
    ensures SpanishEntry(t).Some? ==> TokenEntry(t) == SpanishEntry(t)
    ensures PortugueseEntry(t).Some? ==> TokenEntry(t) == PortugueseEntry(t)
    ensures RomanianEntry(t).Some? ==> TokenEntry(t) == RomanianEntry(t)
    ensures ChineseEntry(t).Some? ==> TokenEntry(t) == ChineseEntry(t)
  {
    FillersAgree(t);
    FrenchAgreesWithItalianGermanSpanish(t);
    FrenchAgreesWithPortugueseRomanianChinese(t);
    ItalianAgreesWithGermanSpanishPortuguese(t);
    ItalianAgreesWithRomanianChinese(t);
    GermanAgreesWithSpanishPortuguese(t);
    GermanAgreesWithRomanianChinese(t);
    SpanishAgreesWithPortugueseRomanian(t);
    SpanishPortugueseAgreeWithChinese(t);
    PortugueseAgreesWithRomanian(t);
    RomanianAgreesWithChinese(t);
  }

  /** The token is a key of the table exactly when some block lists it. */
  lemma TokenEntryListed(t: string)
    ensures TokenEntry(t).Some? <==>
      FillerEntry(t).Some? || FrenchEntry(t).Some? || ItalianEntry(t).Some? || GermanEntry(t).Some? ||
      SpanishEntry(t).Some? || PortugueseEntry(t).Some? || RomanianEntry(t).Some? || ChineseEntry(t).Some?
  {
  }

  /** The five filler tokens are removed. */
  lemma FillersAreDropped()
    ensures TokenEntry(".") == Some(Drop) && TokenEntry("de") == Some(Drop)
    ensures TokenEntry("月") == Some(Drop) && TokenEntry("年") == Some(Drop) && TokenEntry("日") == Some(Drop)
  {
    TokenEntryAgreesWithEveryBlock(".");
    TokenEntryAgreesWithEveryBlock("de");
    TokenEntryAgreesWithEveryBlock("月");
    TokenEntryAgreesWithEveryBlock("年");
    TokenEntryAgreesWithEveryBlock("日");
  }

  /** The repeated keys keep their one month. */
  lemma RepeatedKeys()
    ensures TokenEntry("mai") == Some(Month(5)) && TokenEntry("novembre") == Some(Month(11))
    ensures TokenEntry("marzo") == Some(Month(3)) && TokenEntry("agosto") == Some(Month(8))
    ensures TokenEntry("abril") == Some(Month(4)) && TokenEntry("august") == Some(Month(8))
  {
    RepeatedKeysRomance();
    TokenEntryAgreesWithEveryBlock("abril");
    TokenEntryAgreesWithEveryBlock("august");
  }

  lemma RepeatedKeysRomance()
    ensures TokenEntry("mai") == Some(Month(5)) && TokenEntry("novembre") == Some(Month(11))
    ensures TokenEntry("marzo") == Some(Month(3)) && TokenEntry("agosto") == Some(Month(8))
  {
    TokenEntryAgreesWithEveryBlock("mai");
    TokenEntryAgreesWithEveryBlock("novembre");
    TokenEntryAgreesWithEveryBlock("marzo");
    TokenEntryAgreesWithEveryBlock("agosto");
  }

  // ---------------------------------------------------------------------------
  // Token resolution

  /** The characters PHP's `trim` strips: space, tab, LF, CR, NUL and vertical tab. */
  predicate IsTrimmable(c: char)
  {
    c == ' ' || c == '\t' || c == '\n' || c == '\r' || c == '\0' || c == '\U{0B}'
  }

  function TrimLeft(s: string): (r: string)
    ensures |r| <= |s|
    decreases |s|
  {
    if |s| > 0 && IsTrimmable(s[0]) then TrimLeft(s[1..]) else s
  }

  function TrimRight(s: string): (r: string)
    ensures |r| <= |s|
    decreases |s|
  {
    if |s| > 0 && IsTrimmable(s[|s| - 1]) then TrimRight(s[..|s| - 1]) else s
  }

  /** PHP's `trim`: the input without its leading and trailing trimmable characters. */
  function Trim(s: string): string
  {
    TrimRight(TrimLeft(s))
  }

  /** `TrimLeft` removes exactly the leading run of trimmable characters. */
  lemma {:induction false} TrimLeftSpec(s: string)
    ensures var r := TrimLeft(s); r == s[|s| - |r|..]
    ensures var r := TrimLeft(s); |r| > 0 ==> !IsTrimmable(r[0])
    ensures var r := TrimLeft(s); forall i :: 0 <= i < |s| - |r| ==> IsTrimmable(s[i])
    decreases |s|
  {
    if |s| > 0 && IsTrimmable(s[0]) {
      TrimLeftSpec(s[1..]);
      var r := TrimLeft(s);
      assert r == TrimLeft(s[1..]);
      assert s[1..][|s| - 1 - |r|..] == s[|s| - |r|..];
      forall i | 0 <= i < |s| - |r| ensures IsTrimmable(s[i]) {
        if i > 0 {
          assert s[i] == s[1..][i - 1];
        }
      }
    }
  }

  /** `TrimRight` removes exactly the trailing run of trimmable characters. */
  lemma {:induction false} TrimRightSpec(s: string)
    ensures var r := TrimRight(s); r == s[..|r|]
    ensures var r := TrimRight(s); |r| > 0 ==> !IsTrimmable(r[|r| - 1])
    ensures var r := TrimRight(s); forall i :: |r| <= i < |s| ==> IsTrimmable(s[i])
    decreases |s|
  {
    if |s| > 0 && IsTrimmable(s[|s| - 1]) {
      var s' := s[..|s| - 1];
      TrimRightSpec(s');
      var r := TrimRight(s);
      assert r == TrimRight(s');
      assert s'[..|r|] == s[..|r|];
      forall i | |r| <= i < |s| ensures IsTrimmable(s[i]) {
        if i < |s| - 1 {
          assert s[i] == s'[i];
        }
      }
    }
  }

  /** Trimming leaves a factor of the input with no trimmable character at either end. */
  lemma TrimShape(s: string)
    ensures var t := Trim(s); var i := |s| - |TrimLeft(s)|; i + |t| <= |s| && t == s[i..i + |t|]
    ensures var t := Trim(s); |t| > 0 ==> !IsTrimmable(t[0]) && !IsTrimmable(t[|t| - 1])
  {
    var l := TrimLeft(s);
    var t := TrimRight(l);
    var i := |s| - |l|;
    TrimLeftSpec(s);
    TrimRightSpec(l);
    assert s[i..][..|t|] == s[i..i + |t|];
    if |t| > 0 {
      assert t[0] == l[0];
    }
  }

  /** A token made only of trimmable characters trims to the empty string. */
  lemma TrimBlank(s: string)
    requires forall i :: 0 <= i < |s| ==> IsTrimmable(s[i])
    ensures Trim(s) == ""
  {
    TrimLeftSpec(s);
  }

  /** A token lookup with the shape of `$_tokenMap`; the parser uses `TokenEntry`. */
  type Table = string -> Option<Entry>

  /**
   * What one token of the split contributes to the candidate: nothing when it
   * is empty after trimming or is removed by the table, its month code when the
   * table gives one, and otherwise the trimmed token itself.
   */
  function ResolveToken(table: Table, token: string): Option<string>
  {
    var t := Trim(token);
    if |t| < 1 then None
    else
      match table(t)
      case Some(Drop) => None
      case Some(Month(m)) => Some(MonthCode(m))
      case None => Some(t)
  }

  /** The surviving tokens, in input order. */
  function ResolveTokens(table: Table, tokens: seq<string>): seq<string>
    decreases |tokens|
  {
    if |tokens| == 0 then []
    else
      var rest := ResolveTokens(table, tokens[..|tokens| - 1]);
      match ResolveToken(table, tokens[|tokens| - 1])
      case None => rest
      case Some(x) => rest + [x]
  }

  /** Resolution works token by token: the survivors of a concatenation are the concatenated survivors. */
  lemma {:induction false} ResolveTokensAppend(table: Table, a: seq<string>, b: seq<string>)
    ensures ResolveTokens(table, a + b) == ResolveTokens(table, a) + ResolveTokens(table, b)
    decreases |b|
  {
    if |b| == 0 {
      assert a + b == a;
    } else {
      var b' := b[..|b| - 1];
      assert (a + b)[..|a + b| - 1] == a + b';
      assert (a + b)[|a + b| - 1] == b[|b| - 1];
      ResolveTokensAppend(table, a, b');
    }
  }

  /** A single token: removed, replaced by its month code, or kept trimmed. */
  lemma ResolveOne(table: Table, token: string)
    ensures Trim(token) == "" ==> ResolveTokens(table, [token]) == []
    ensures Trim(token) != "" && table(Trim(token)) == Some(Drop) ==> ResolveTokens(table, [token]) == []
    ensures Trim(token) != "" && table(Trim(token)).Some? && table(Trim(token)).value.Month? ==>
              ResolveTokens(table, [token]) == [MonthCode(table(Trim(token)).value.month)]
    ensures Trim(token) != "" && table(Trim(token)).None? ==> ResolveTokens(table, [token]) == [Trim(token)]
  {
    assert [token][..0] == [];
  }

  /** What survives of one token is a trimmed string: a month code or a string the table does not know. */
  predicate Survivor(table: Table, x: string)
  {
    |x| >= 1 && !IsTrimmable(x[0]) && !IsTrimmable(x[|x| - 1]) && (x in MonthCodes || table(x).None?)
  }

  lemma ResolveTokenShape(table: Table, token: string)
    ensures ResolveToken(table, token).Some? ==> Survivor(table, ResolveToken(table, token).value)
  {
    TrimShape(token);
    var t := Trim(token);
    if |t| >= 1 {
      match table(t) {
        case Some(e) =>
          if e.Month? {
            MonthCodeListed(e.month);
            assert MonthCode(e.month) == MonthCodes[e.month - 1];
          }
        case None =>
      }
    }
  }

  /**
   * Every survivor is non-empty and has no trimmable character at either end,
   * and it is either a month code or a string the table does not know: nothing
   * the table would translate survives untranslated.
   */
  lemma {:induction false} ResolveTokensShape(table: Table, tokens: seq<string>)
    ensures forall x :: x in ResolveTokens(table, tokens) ==> Survivor(table, x)
    decreases |tokens|
  {
    if |tokens| > 0 {
      ResolveTokensShape(table, tokens[..|tokens| - 1]);
      ResolveTokenShape(table, tokens[|tokens| - 1]);
    }
  }

  /** A token the table removes does not influence the candidate at all. */
  lemma DroppedTokenIsNeutral(table: Table, a: seq<string>, token: string, b: seq<string>)
    requires Trim(token) == "" || table(Trim(token)) == Some(Drop)
    ensures ResolveTokens(table, a + [token] + b) == ResolveTokens(table, a + b)
  {
    ResolveTokensAppend(table, a + [token], b);
    ResolveTokensAppend(table, a, [token]);
    ResolveTokensAppend(table, a, b);
    ResolveOne(table, token);
  }

  /** The `foreach` of `parse` that fills `$translatedTokens`. */
  method TranslateTokens(tokens: seq<string>) returns (translated: seq<string>)
    ensures translated == ResolveTokens(TokenEntry, tokens)
  {
    translated := [];
    var i := 0;
    while i < |tokens|
      invariant 0 <= i <= |tokens|
      invariant translated == ResolveTokens(TokenEntry, tokens[..i])
    {
      var token := Trim(tokens[i]);
      assert tokens[..i + 1][..i] == tokens[..i];
      if |token| < 1 {
        i := i + 1;
        continue;
      }
      match TokenEntry(token) {
        case Some(e) =>
          if e != Drop {
            translated := translated + [MonthCode(e.month)];
          }
        case None =>
          translated := translated + [token];
      }
      i := i + 1;
    }
    assert tokens[..i] == tokens;
  }

  // ---------------------------------------------------------------------------
  // Parsing

  /**
   * The platform facilities `parse` calls: `strtotime` (None for its `false`),
   * `mb_strtolower` and the word-boundary split `preg_split('/\b/u', ...)`.
   */
  datatype Platform = Platform(
    strtotime: string -> Option<int>,
    lower: string -> string,
    splitWords: string -> seq<string>)

  /** The dash-joined string the fallback hands to `strtotime`. */
  function Candidate(p: Platform, transliterated: string): string
  {
    Text.Join("-", ResolveTokens(TokenEntry, p.splitWords(p.lower(transliterated))))
  }

  /**
   * `DateParser::parse`: the direct parse of the transliterated input when it
   * succeeds, otherwise the parse of the dash-joined candidate; None (PHP's
   * `false`) only when both fail.
   */
  method Parse(date: string, p: Platform) returns (r: Option<int>)
    ensures p.strtotime(Transliterate(date)).Some? ==> r == p.strtotime(Transliterate(date))
    ensures p.strtotime(Transliterate(date)).None? ==> r == p.strtotime(Candidate(p, Transliterate(date)))
    ensures r.None? <==> p.strtotime(Transliterate(date)).None? && p.strtotime(Candidate(p, Transliterate(date))).None?
  {
    var d := Transliterate(date);
    var direct := p.strtotime(d);
    if direct.Some? {
      return direct;
    }
    var tokens := p.splitWords(p.lower(d));
    var translated := TranslateTokens(tokens);
    r := p.strtotime(Text.Join("-", translated));
  }

  /**
   * When the split only cuts the string into pieces (their concatenation is the
   * string) and the lowered string is blank, the candidate is empty.
   */
  lemma BlankInputGivesEmptyCandidate(p: Platform, transliterated: string)
    requires Text.Concat(p.splitWords(p.lower(transliterated))) == p.lower(transliterated)
    requires forall i :: 0 <= i < |p.lower(transliterated)| ==> IsTrimmable(p.lower(transliterated)[i])
    ensures Candidate(p, transliterated) == ""
  {
    BlankPiecesResolveToNothing(TokenEntry, p.splitWords(p.lower(transliterated)));
  }

  lemma {:induction false} BlankPiecesResolveToNothing(table: Table, tokens: seq<string>)
    requires forall i :: 0 <= i < |Text.Concat(tokens)| ==> IsTrimmable(Text.Concat(tokens)[i])
    ensures ResolveTokens(table, tokens) == []
    decreases |tokens|
  {
    if |tokens| > 0 {
      var front := tokens[..|tokens| - 1];
      var last := tokens[|tokens| - 1];
      assert tokens == front + [last];
      Text.ConcatAppend(front, [last]);
      assert Text.Concat([last]) == last;
      var whole := Text.Concat(tokens);
      assert whole == Text.Concat(front) + last;
      forall i | 0 <= i < |Text.Concat(front)| ensures IsTrimmable(Text.Concat(front)[i]) {
        assert Text.Concat(front)[i] == whole[i];
      }
      forall i | 0 <= i < |last| ensures IsTrimmable(last[i]) {
        assert last[i] == whole[|Text.Concat(front)| + i];
      }
      BlankPiecesResolveToNothing(table, front);
      TrimBlank(last);
    }
  }

  // Two worked examples. The table is consulted only through the few entries
  // each example needs, which keeps the proofs small.

  /** A token with no trimmable character at either end is its own trim. */
  lemma TrimKeeps(s: string)
    requires |s| > 0 && !IsTrimmable(s[0]) && !IsTrimmable(s[|s| - 1])
    ensures Trim(s) == s
  {
  }

  lemma TrimDotSpace()
    ensures Trim(". ") == "."
  {
    assert TrimLeft(". ") == ". ";
    assert ". "[..1] == ".";
    assert TrimRight(". ") == TrimRight(".");
    TrimKeeps(".");
  }

  lemma FifteenIsNotAKey()
    ensures TokenEntry("15") == None
  {
  }

  lemma YearIsNotAKey()
    ensures TokenEntry("2023") == None
  {
  }

  lemma DotIsDropped()
    ensures TokenEntry(".") == Some(Drop)
  {
    TokenEntryAgreesWithEveryBlock(".");
  }

  lemma NovembreIsEleven()
    ensures TokenEntry("novembre") == Some(Month(11))
  {
    TokenEntryAgreesWithEveryBlock("novembre");
  }

  lemma NovemberIsEleven()
    ensures TokenEntry("november") == Some(Month(11))
  {
    TokenEntryAgreesWithEveryBlock("november");
  }

  lemma JoinThree(a: string, b: string, c: string)
    ensures Text.Join("-", [a, b, c]) == a + "-" + b + "-" + c
  {
    assert [a, b, c][1..] == [b, c];
    assert [b, c][1..] == [c];
    assert Text.Join("-", [b, c]) == b + "-" + c;
  }

  /** Day, month and year around blank or dropped separators resolve to "day-month-year". */
  lemma DayMonthYear(table: Table, tokens: seq<string>, month: MonthNumber)
    requires |tokens| == 5
    requires TrimKeepsAll(tokens[0]) && table(tokens[0]) == None
    requires TrimKeepsAll(tokens[4]) && table(tokens[4]) == None
    requires Trim(tokens[2]) != "" && table(Trim(tokens[2])) == Some(Month(month))
    requires Trim(tokens[1]) == "" || table(Trim(tokens[1])) == Some(Drop)
    requires Trim(tokens[3]) == "" || table(Trim(tokens[3])) == Some(Drop)
    ensures ResolveTokens(table, tokens) == [tokens[0], MonthCode(month), tokens[4]]
  {
    TrimKeeps(tokens[0]);
    TrimKeeps(tokens[4]);
    assert tokens[..1][..0] == [];
    assert ResolveTokens(table, tokens[..1]) == [tokens[0]];
    assert tokens[..2][..1] == tokens[..1];
    assert ResolveTokens(table, tokens[..2]) == [tokens[0]];
    assert tokens[..3][..2] == tokens[..2];
    assert ResolveTokens(table, tokens[..3]) == [tokens[0], MonthCode(month)];
    assert tokens[..4][..3] == tokens[..3];
    assert ResolveTokens(table, tokens[..4]) == [tokens[0], MonthCode(month)];
    assert tokens[..4] == tokens[..|tokens| - 1];
  }

  predicate TrimKeepsAll(s: string)
  {
    |s| > 0 && !IsTrimmable(s[0]) && !IsTrimmable(s[|s| - 1])
  }

  /** The empty pieces `preg_split` leaves at both ends of the input contribute nothing. */
  lemma EmptyEnds(table: Table, tokens: seq<string>)
    requires |tokens| == 7 && tokens[0] == "" && tokens[6] == ""
    ensures ResolveTokens(table, tokens) == ResolveTokens(table, tokens[1..6])
  {
    assert tokens == [""] + tokens[1..6] + [""];
    ResolveOne(table, "");
    ResolveTokensAppend(table, [""] + tokens[1..6], [""]);
    ResolveTokensAppend(table, [""], tokens[1..6]);
  }

  /** The French example against any table that has the entries it needs. */
  lemma FrenchTokensWith(table: Table, tokens: seq<string>)
    requires tokens == ["15", " ", "novembre", " ", "2023"]
    requires table("15") == None && table("2023") == None && table("novembre") == Some(Month(11))
    ensures ResolveTokens(table, tokens) == ["15", "11", "2023"]
  {
    TrimBlank(tokens[1]);
    TrimBlank(tokens[3]);
    TrimKeeps(tokens[2]);
    DayMonthYear(table, tokens, 11);
    assert MonthCode(11) == "11";
  }

  /** `preg_split('/\b/u', "15 novembre 2023")`, with its empty first and last piece. */
  lemma FrenchTokens(tokens: seq<string>)
    requires tokens == ["", "15", " ", "novembre", " ", "2023", ""]
    ensures ResolveTokens(TokenEntry, tokens) == ["15", "11", "2023"]
  {
    FifteenIsNotAKey();
    YearIsNotAKey();
    NovembreIsEleven();
    EmptyEnds(TokenEntry, tokens);
    FrenchTokensWith(TokenEntry, tokens[1..6]);
  }

  /** The German example against any table that has the entries it needs. */
  lemma GermanTokensWith(table: Table, tokens: seq<string>)
    requires tokens == ["15", ". ", "november", " ", "2023"]
    requires table("15") == None && table("2023") == None && table("november") == Some(Month(11))
    requires table(".") == Some(Drop)
    ensures ResolveTokens(table, tokens) == ["15", "11", "2023"]
  {
    TrimDotSpace();
    TrimBlank(tokens[3]);
    TrimKeeps(tokens[2]);
    DayMonthYear(table, tokens, 11);
    assert MonthCode(11) == "11";
  }

  /** `preg_split('/\b/u', "15. november 2023")`, with its empty first and last piece. */
  lemma GermanTokens(tokens: seq<string>)
    requires tokens == ["", "15", ". ", "november", " ", "2023", ""]
    ensures ResolveTokens(TokenEntry, tokens) == ["15", "11", "2023"]
  {
    FifteenIsNotAKey();
    YearIsNotAKey();
    NovemberIsEleven();
    DotIsDropped();
    EmptyEnds(TokenEntry, tokens);
    GermanTokensWith(TokenEntry, tokens[1..6]);
  }

  /** "15 novembre 2023", split into words: the French month becomes "11". */
  lemma FrenchExample(p: Platform, date: string)
    requires p.splitWords(p.lower(date)) == ["", "15", " ", "novembre", " ", "2023", ""]
    ensures Candidate(p, date) == "15-11-2023"
  {
    FrenchTokens(p.splitWords(p.lower(date)));
    JoinThree("15", "11", "2023");
  }

  /** "15. November 2023": the separator "." is removed and the German month becomes "11". */
  lemma GermanExample(p: Platform, date: string)
    requires p.splitWords(p.lower(date)) == ["", "15", ". ", "november", " ", "2023", ""]
    ensures Candidate(p, date) == "15-11-2023"
  {
    GermanTokens(p.splitWords(p.lower(date)));
    JoinThree("15", "11", "2023");
  }
}
