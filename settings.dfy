/**
  The fixed configuration the transformation stage reads: the Euro to US
  dollar rate and the list of raw null spellings. Folder and output paths
  are not part of this model.
 */
module Settings {
  import opened Values

  /** `EUR_TO_USD = 1.2`, as the exact decimal 12 / 10. */
  const EUR_TO_USD: Decimal := Decimal(12, 1)

  /** `NULL_VALUES`: four strings, a tab, and Python's `None`. */
  const NULL_VALUES: seq<Value> := [Text("NULL"), Text("None"), Text(""), Text(" "), Text("\t"), Absent]
}
