/**
 * src/configs/curency.ts and the configuration check of
 * src/contexts/AppConfigProvider.tsx: which characters separate thousands
 * and decimals for the configured currency format.
 */
module Currency {
  import opened Wrappers

  /**
   * The currency part of the application configuration. A missing
   * `separatorCharacter` is None; any string may be given.
   */
  datatype CurrencyConfig = CurrencyConfig(useThousandSeparator: bool, separatorCharacter: Option<string>)

  datatype SeparatorPair = SeparatorPair(thousandSeparator: string, decimalSeparator: string)

  /** The US pair: `,` between thousands, `.` before the decimals. */
  const UsPair := SeparatorPair(",", ".")

  /** The Vietnamese / European pair: `.` between thousands, `,` before the decimals. */
  const VnPair := SeparatorPair(".", ",")

  /** JavaScript truthiness of an optional string: present and nonempty. */
  predicate Truthy(s: Option<string>) {
    s.Some? && s.value != ""
  }

  /**
   * `getSeparatorPair`: the US pair unless thousand separators are on and
   * the separator character is something other than `.`.
   */
  function GetSeparatorPair(config: CurrencyConfig): (r: SeparatorPair)
    ensures r.thousandSeparator != r.decimalSeparator
    ensures r.thousandSeparator in {".", ","} && r.decimalSeparator in {".", ","}
  {
    if !config.useThousandSeparator || config.separatorCharacter == Some(".") then UsPair
    else VnPair
  }

  /**
   * The check `AppConfigProvider` makes before it provides the
   * configuration: thousand separators need a nonempty separator character.
   */
  predicate AcceptedAtSetup(config: CurrencyConfig) {
    !(config.useThousandSeparator && !Truthy(config.separatorCharacter))
  }

  /** The decimal separator is `,` exactly when thousand separators are on with a character other than `.`. */
  lemma CommaDecimalExactly(config: CurrencyConfig)
    ensures GetSeparatorPair(config).decimalSeparator == "," <==>
      config.useThousandSeparator && config.separatorCharacter != Some(".")
    ensures GetSeparatorPair(config).thousandSeparator == "," <==>
      GetSeparatorPair(config).decimalSeparator == "."
  {
  }

  /** Without thousand separators the pair is the US one, whatever character is given. */
  lemma NoThousandsIsUs(config: CurrencyConfig)
    requires !config.useThousandSeparator
    ensures GetSeparatorPair(config) == UsPair
  {
  }

  /**
   * Among the configurations accepted at setup, a `,` separator character
   * selects the Vietnamese pair and a `.` the US pair.
   */
  lemma AcceptedPairs(config: CurrencyConfig)
    requires AcceptedAtSetup(config) && config.useThousandSeparator
    ensures Truthy(config.separatorCharacter)
    ensures config.separatorCharacter == Some(",") ==> GetSeparatorPair(config) == VnPair
    ensures config.separatorCharacter == Some(".") ==> GetSeparatorPair(config) == UsPair
  {
  }

  /** The setup check refuses exactly thousand separators with no or an empty character. */
  lemma SetupRejects(config: CurrencyConfig)
    ensures !AcceptedAtSetup(config) <==>
      config.useThousandSeparator &&
      (config.separatorCharacter == None || config.separatorCharacter == Some(""))
  {
  }
}
