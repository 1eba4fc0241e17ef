/** The masking callbacks main.go hands to the logging middleware: MaskLog
    chooses how a logged field is masked by its name, Mask redacts the
    "phone" entry of a request or response map in place. The character
    masking itself, core-go's strings.Mask(s, start, end, mask), is not part
    of this model: it is a parameter that the model never looks inside. */
module LogMask {
  import opened GoValues

  /** strings.Mask(s, start, end, mask). */
  type Masker = (GoString, int, int, GoString) -> GoString

  const Phone: GoString := [0x70, 0x68, 0x6f, 0x6e, 0x65]                 // "phone"
  const MobileNo: GoString := [0x6d, 0x6f, 0x62, 0x69, 0x6c, 0x65, 0x4e, 0x6f]  // "mobileNo"
  const Star: GoString := [0x2a]                                         // "*"
  const LowerX: GoString := [0x78]                                       // "x"

  /** The log field `name` with value `s` as it is written to the log:
      "mobileNo" is masked with start 2, end 2 and mask "x", every other field
      with start 0, end 5 and mask "x". */
  function MaskLog(maskStr: Masker, name: GoString, s: GoString): (r: GoString)
    ensures name == MobileNo ==> r == maskStr(s, 2, 2, LowerX)
    ensures name != MobileNo ==> r == maskStr(s, 0, 5, LowerX)
  {
    if name == MobileNo then maskStr(s, 2, 2, LowerX) else maskStr(s, 0, 5, LowerX)
  }

  /** The map `obj` after Mask: only a "phone" entry holding a string longer
      than three bytes is replaced, by its masked form; every other entry and
      the set of keys stay as they were. */
  function Masked(maskStr: Masker, obj: Fields): (r: Fields)
    ensures r.Keys == obj.Keys
    ensures forall k :: k in obj && k != Phone ==> r[k] == obj[k]
    ensures Phone !in obj ==> r == obj
    ensures Phone in obj && !obj[Phone].Str? ==> r == obj
    ensures Phone in obj && obj[Phone].Str? && |obj[Phone].s| <= 3 ==> r == obj
    ensures Phone in obj && obj[Phone].Str? && |obj[Phone].s| > 3 ==>
              r[Phone] == Str(maskStr(obj[Phone].s, 0, 3, Star))
  {
    if Phone in obj && obj[Phone].Str? && |obj[Phone].s| > 3
    then obj[Phone := Str(maskStr(obj[Phone].s, 0, 3, Star))]
    else obj
  }

  /** A Go map[string]interface{}: a reference to a map its callees change in place. */
  class FieldMap {
    var obj: Fields

    constructor (obj: Fields)
      ensures this.obj == obj
    {
      this.obj := obj;
    }

    /** Mask(obj): redacts the "phone" entry of the map in place. */
    method Mask(maskStr: Masker)
      modifies this
      ensures obj == Masked(maskStr, old(obj))
      ensures obj.Keys == old(obj).Keys
      ensures forall k :: k in old(obj) && k != Phone ==> obj[k] == old(obj)[k]
    {
      if Phone in obj {
        var v := obj[Phone];
        if v.Str? && |v.s| > 3 {
          obj := obj[Phone := Str(maskStr(v.s, 0, 3, Star))];
        }
      }
    }
  }
}
