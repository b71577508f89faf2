/** Fingerprints to build examples from. */
module Samples {
  import opened Encoding

  /** A fingerprint made of one digit. */
  function HexText(c: CodeUnit): (t: Text)
    requires LowerHex(c)
    ensures Hex64(t) && t[0] == c
  {
    seq(64, _ => c)
  }

  const ZEROS: Text := HexText(0x30)
  const ONES: Text := HexText(0x31)
}
