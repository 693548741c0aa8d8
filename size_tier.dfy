/** The colour choice of `format_filesize`; the human-readable text itself is not modelled. */
module SizeTier {
  import opened Common

  /** The colour a byte count is painted with; `NoColour` is the plain branch. */
  datatype Tier = LightRed | Yellow1 | PaleGreen1a | NoColour

  /** The alert threshold. Its value is 50,000,000 bytes, although the source's comment calls it 50 gigabytes. */
  const UpperThreshold: U64 := 50 * 1000 * 1000

  /** Bounds of the warning band: more than 500 MiB and at most 1 GiB. */
  const WarningLow: U64 := 524288000
  const WarningHigh: U64 := 1073741824

  /**
   * The tier `format_filesize` picks for `filesize`. The branches are tried in
   * the source's order; because the first threshold is only 50 MB, the
   * classification collapses to two tiers: the warning branch and the
   * uncoloured fallback are never reached.
   */
  function FormatTier(filesize: U64): (t: Tier)
    ensures t == LightRed <==> filesize >= 50_000_000
    ensures t == PaleGreen1a <==> filesize < 50_000_000
    ensures t != Yellow1 && t != NoColour
  {
    if filesize >= UpperThreshold then LightRed
    else if WarningLow < filesize <= WarningHigh then Yellow1
    else if filesize <= WarningLow then PaleGreen1a
    else NoColour
  }
}
