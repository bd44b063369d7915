/** `RESOURCE_ID_PATTERN`: on character codes, for ids that travel as ASCII bytes,
    and on text. */
module ResourceIds {
  predicate AlphaNumeric(c: int) { 0x30 <= c <= 0x39 || 0x41 <= c <= 0x5A || 0x61 <= c <= 0x7A }

  predicate ResourceId(codes: seq<int>) {
    && 1 <= |codes| <= 128 && AlphaNumeric(codes[0])
    && forall c <- codes :: AlphaNumeric(c) || c in {0x2E, 0x5F, 0x2D}
  }

  predicate ResourceIdText(id: string) { ResourceId(seq(|id|, i requires 0 <= i < |id| => id[i] as int)) }
}
