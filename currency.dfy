/** `formatCurrency` of the language provider: renders one of the two
    rupee amounts the application shows (500 and 400) for the current
    language, from two static tables: the local currency's symbol with its
    position, and the two amounts already converted into that currency. */
module Currency {
  import opened Text

  /** Where the symbol goes relative to the numeral. */
  datatype Position = Pre | Post

  datatype CurrencyInfo = CurrencyInfo(symbol: string, position: Position)

  /** The converted numerals for the two rupee amounts. */
  datatype Conversion = Conversion(for500: nat, for400: nat)

  /** The only amounts callers may pass (the TypeScript type `500 | 400`). */
  type AmountInr = n: nat | n == 500 || n == 400 witness 500

  /** The base currency, used for `en` and `hi` and as the fallback. */
  const BaseSymbol: string := "₹"

  const CurrencyData: map<string, CurrencyInfo> := map[
    "bn" := CurrencyInfo("৳", Pre),
    "ur" := CurrencyInfo("Rs", Pre),
    "ne" := CurrencyInfo("रू", Pre),
    "ru" := CurrencyInfo("₽", Post),
    "es" := CurrencyInfo("€", Pre),
    "fr" := CurrencyInfo("€", Pre),
    "de" := CurrencyInfo("€", Pre),
    "pt" := CurrencyInfo("€", Pre),
    "it" := CurrencyInfo("€", Pre),
    "zh" := CurrencyInfo("¥", Pre),
    "ja" := CurrencyInfo("¥", Pre),
    "ko" := CurrencyInfo("₩", Pre),
    "ar" := CurrencyInfo("﷼", Pre),
    "tr" := CurrencyInfo("₺", Pre),
    "nl" := CurrencyInfo("€", Pre),
    "pl" := CurrencyInfo("zł", Post),
    "sv" := CurrencyInfo("kr", Post),
    "no" := CurrencyInfo("kr", Post),
    "da" := CurrencyInfo("kr", Post),
    "fi" := CurrencyInfo("€", Pre),
    "id" := CurrencyInfo("Rp", Pre),
    "vi" := CurrencyInfo("₫", Post),
    "th" := CurrencyInfo("฿", Pre),
    "ms" := CurrencyInfo("RM", Pre),
    "fil" := CurrencyInfo("₱", Pre),
    "el" := CurrencyInfo("€", Pre),
    "cs" := CurrencyInfo("Kč", Post),
    "hu" := CurrencyInfo("Ft", Post),
    "ro" := CurrencyInfo("lei", Post),
    "uk" := CurrencyInfo("₴", Pre),
    "he" := CurrencyInfo("₪", Pre),
    "fa" := CurrencyInfo("﷼", Post)
  ]

  const Conversions: map<string, Conversion> := map[
    "bn" := Conversion(689, 551),
    "ur" := Conversion(1599, 1279),
    "ne" := Conversion(800, 640),
    "ru" := Conversion(1050, 840),
    "es" := Conversion(6, 5),
    "fr" := Conversion(6, 5),
    "de" := Conversion(6, 5),
    "pt" := Conversion(6, 5),
    "it" := Conversion(6, 5),
    "zh" := Conversion(87, 70),
    "ja" := Conversion(1890, 1512),
    "ko" := Conversion(16590, 13272),
    "ar" := Conversion(45, 36),
    "tr" := Conversion(390, 312),
    "nl" := Conversion(6, 5),
    "pl" := Conversion(48, 38),
    "sv" := Conversion(125, 100),
    "no" := Conversion(128, 102),
    "da" := Conversion(82, 66),
    "fi" := Conversion(6, 5),
    "id" := Conversion(97500, 78000),
    "vi" := Conversion(305000, 244000),
    "th" := Conversion(440, 352),
    "ms" := Conversion(56, 45),
    "fil" := Conversion(700, 560),
    "el" := Conversion(6, 5),
    "cs" := Conversion(275, 220),
    "hu" := Conversion(4330, 3464),
    "ro" := Conversion(55, 44),
    "uk" := Conversion(480, 384),
    "he" := Conversion(44, 35),
    "fa" := Conversion(504000, 403200)
  ]

  function Converted(c: Conversion, amount: AmountInr): nat
  {
    if amount == 500 then c.for500 else c.for400
  }

  /** `₹` directly followed by the amount itself. */
  function BaseCurrency(amount: AmountInr): string
  {
    BaseSymbol + Decimal(amount)
  }

  /** `formatCurrency(amountInr)` with the provider's current language
      passed in. */
  function FormatCurrency(amount: AmountInr, language: string): string
  {
    if language == "en" || language == "hi" then BaseCurrency(amount)
    else if language in Conversions && language in CurrencyData then
      var converted := Converted(Conversions[language], amount);
      var info := CurrencyData[language];
      if info.position == Pre then info.symbol + Decimal(converted)
      else Grouped(converted) + info.symbol
    else BaseCurrency(amount)
  }

  /** Both tables cover exactly the same languages, and neither covers the
      two languages that use rupees. */
  lemma TablesCoverSameLanguages()
    ensures CurrencyData.Keys == Conversions.Keys
    ensures "en" !in CurrencyData && "hi" !in CurrencyData
  {
    DataLanguagesConverted();
    ConvertedLanguagesHaveData();
  }

  lemma DataLanguagesConverted()
    ensures forall k :: k in CurrencyData ==> k in Conversions
  {
    forall k | k in CurrencyData ensures k in Conversions {}
  }

  lemma ConvertedLanguagesHaveData()
    ensures forall k :: k in Conversions ==> k in CurrencyData
  {
    forall k | k in Conversions ensures k in CurrencyData {}
  }

  /** `en`, `hi` and every language without data in one of the tables get
      `₹` followed by the amount itself. */
  lemma RupeeFormat(amount: AmountInr, language: string)
    requires language == "en" || language == "hi"
          || language !in Conversions || language !in CurrencyData
    ensures FormatCurrency(amount, language) == BaseSymbol + Decimal(amount)
  {
  }

  /** An unknown language code formats exactly as English does. */
  lemma UnknownLanguageLikeEnglish(amount: AmountInr, language: string)
    requires language !in Conversions
    ensures FormatCurrency(amount, language) == FormatCurrency(amount, "en")
  {
  }

  /** A `pre` currency: its symbol immediately followed by the ungrouped
      converted numeral. */
  lemma PreFormat(amount: AmountInr, language: string)
    requires language in CurrencyData && CurrencyData[language].position == Pre
    ensures language in Conversions
    ensures FormatCurrency(amount, language)
         == CurrencyData[language].symbol + Decimal(Converted(Conversions[language], amount))
  {
    TablesCoverSameLanguages();
  }

  /** A `post` currency: the converted numeral with comma grouping,
      immediately followed by the symbol; the commas sit between groups of
      three digits, and dropping them leaves the plain converted numeral. */
  lemma PostFormat(amount: AmountInr, language: string)
    requires language in CurrencyData && CurrencyData[language].position == Post
    ensures language in Conversions
    ensures var r := FormatCurrency(amount, language);
            var symbol := CurrencyData[language].symbol;
            var numeral := Converted(Conversions[language], amount);
            |symbol| <= |r| && r[|r| - |symbol|..] == symbol
            && WithoutCommas(r[..|r| - |symbol|]) == Decimal(numeral)
            && CommasInThrees(r[..|r| - |symbol|])
  {
    TablesCoverSameLanguages();
    var r := FormatCurrency(amount, language);
    var symbol := CurrencyData[language].symbol;
    var numeral := Converted(Conversions[language], amount);
    assert r == Grouped(numeral) + symbol;
    assert r[..|r| - |symbol|] == Grouped(numeral);
    GroupedDigits(numeral);
    GroupedCommas(numeral);
  }

  /** No local symbol starts with the rupee sign. */
  lemma SymbolsAreNotRupee(language: string)
    requires language in CurrencyData
    ensures |CurrencyData[language].symbol| >= 1
    ensures CurrencyData[language].symbol[0] != BaseSymbol[0]
  {
  }

  /** A result starts with `₹` exactly when the language has no currency
      data of its own: a language with data never shows rupees. */
  lemma RupeeExactlyWithoutData(amount: AmountInr, language: string)
    ensures var r := FormatCurrency(amount, language);
            |r| >= 1 && (r[0] == BaseSymbol[0] <==> language !in CurrencyData)
  {
    TablesCoverSameLanguages();
    var r := FormatCurrency(amount, language);
    if language in CurrencyData {
      SymbolsAreNotRupee(language);
      var numeral := Converted(Conversions[language], amount);
      if CurrencyData[language].position == Post {
        assert r == Grouped(numeral) + CurrencyData[language].symbol;
        assert IsDigit(r[0]);
      }
    }
  }

  /** Examples: the two rupee languages, a `pre` and a `post` currency,
      a grouped and an ungrouped large amount, and an unknown code. */
  lemma ExampleEnglish()
    ensures FormatCurrency(500, "en") == "₹500"
  {
  }

  lemma ExampleHindi()
    ensures FormatCurrency(400, "hi") == "₹400"
  {
  }

  lemma ExampleBengali()
    ensures FormatCurrency(500, "bn") == "৳689"
  {
  }

  lemma ExamplePolish()
    ensures FormatCurrency(500, "pl") == "48zł"
  {
  }

  lemma ExampleVietnamese()
    ensures FormatCurrency(500, "vi") == "305,000₫"
  {
  }

  lemma ExampleKorean()
    ensures FormatCurrency(500, "ko") == "₩16590"
  {
  }

  lemma ExampleUnknown()
    ensures FormatCurrency(400, "xx") == "₹400"
  {
  }
}
