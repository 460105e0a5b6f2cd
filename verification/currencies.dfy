/** The per-currency display precision table (src/config/currencies.ts). */
module Currencies {

  datatype Currency = Currency(symbol: string, decimalPlaces: nat)

  /** The table in source order; `find` scans it front to back. */
  const Table: seq<Currency> := [
    Currency("RUB", 0),
    Currency("BTC", 8),
    Currency("ETH", 8),
    Currency("USDT", 2),
    Currency("TON", 4),
    Currency("XMR", 4),
    Currency("TRX", 2),
    Currency("DOGE", 2),
    Currency("USDC", 2),
    Currency("LTC", 8),
    Currency("SOL", 4),
    Currency("DAI", 2),
    Currency("ADA", 2)
  ]

  /** No symbol is listed twice, so the first match of a scan is the only match. */
  lemma SymbolsDistinct()
    ensures forall i, j :: 0 <= i < j < |Table| ==> Table[i].symbol != Table[j].symbol
  {
  }
}
