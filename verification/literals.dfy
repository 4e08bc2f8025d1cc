/** The MongoDB shell literals the converters print. */
module Literals {

  /** `BinData(3, '<base64>')`: binary subtype 3, the legacy UUID subtype. */
  function BinData(payload: string): (r: string)
    ensures |r| == |payload| + 14
    ensures r[..12] == "BinData(3, '" && r[12..|r| - 2] == payload && r[|r| - 2..] == "')"
  {
    "BinData(3, '" + payload + "')"
  }

  /** `ObjectId('<hex>')`. */
  function ObjectId(hex: string): (r: string)
    ensures |r| == |hex| + 12
    ensures r[..10] == "ObjectId('" && r[10..|r| - 2] == hex && r[|r| - 2..] == "')"
  {
    "ObjectId('" + hex + "')"
  }
}
