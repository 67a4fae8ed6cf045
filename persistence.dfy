/** The firefly's save record (an NBT compound) and what its spawn packet
    carries. */
module Persistence {
  import opened JavaInt

  /** The NBT tags the firefly writes: `putFloat`, `putInt` and
      `putBoolean` (a byte holding 1 or 0). */
  datatype Tag = FloatTag(f: real) | IntTag(i: int32) | ByteTag(b: int)

  type Compound = map<string, Tag>

  /** `getFloat`: the stored float, 0 when the key is absent. */
  function GetFloat(c: Compound, key: string): (v: real)
    ensures key !in c ==> v == 0.0
  {
    if key in c && c[key].FloatTag? then c[key].f else 0.0
  }

  /** `getInt`: the stored int, 0 when the key is absent. */
  function GetInt(c: Compound, key: string): (v: int32)
    ensures key !in c ==> v == 0
  {
    if key in c && c[key].IntTag? then c[key].i else 0
  }

  const SavedKeys: set<string> := {"scale", "color", "alpha", "atracted", "tickoffset"}

  /** `writeAdditional`'s own entries added to compound c. Reading the
      record back yields every value written; the flag is written under the
      key "atracted", which nothing reads. */
  function SaveRecord(c: Compound, scale: real, color: real, alpha: real, attracted: bool, offset: int32): (r: Compound)
    ensures r.Keys == c.Keys + SavedKeys
    ensures forall k :: k in c && k !in SavedKeys ==> k in r && r[k] == c[k]
    ensures GetFloat(r, "scale") == scale
    ensures GetFloat(r, "color") == color
    ensures GetFloat(r, "alpha") == alpha
    ensures GetInt(r, "tickoffset") == offset
    ensures r["atracted"] == ByteTag(if attracted then 1 else 0)
  {
    c["scale" := FloatTag(scale)]
     ["color" := FloatTag(color)]
     ["alpha" := FloatTag(alpha)]
     ["atracted" := ByteTag(if attracted then 1 else 0)]
     ["tickoffset" := IntTag(offset)]
  }

  /** The fixed alpha the spawn packet carries in place of the live one. */
  const SpawnAlpha: real := 1.0

  /** `writeSpawnData`: the packet buffer (as a sequence of floats) after
      writing scale, color and the constant alpha. */
  function SpawnPacket(buffer: seq<real>, scale: real, color: real): (out: seq<real>)
    ensures |out| == |buffer| + 3
    ensures out[..|buffer|] == buffer
    ensures out[|buffer|] == scale && out[|buffer| + 1] == color && out[|buffer| + 2] == SpawnAlpha
  {
    buffer + [scale, color, SpawnAlpha]
  }
}
