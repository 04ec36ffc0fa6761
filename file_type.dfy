/** The asset-type tag of an archive entry and its one-byte wire code
    (`FileType`, `From<u8> for FileType`, `From<FileType> for u8`). */
module FileTypes {
  import opened Wire

  datatype FileType =
    | Box | Obj | Map | HeightMap | Path | Animate | CarProperty | Mdl | Texture | Unknown

  /** The enum's declared discriminant; `Unknown` is declared as -1. */
  function Discriminant(t: FileType): int
  {
    match t
    case Box => 0
    case Obj => 1
    case Map => 2
    case HeightMap => 3
    case Path => 4
    case Animate => 5
    case CarProperty => 6
    case Mdl => 7
    case Texture => 10
    case Unknown => -1
  }

  /** The codes the reader recognises; every other byte reads as `Unknown`. */
  predicate IsKnownCode(b: byte)
  {
    b <= 7 || b == 10
  }

  /** `FileType::from(u8)`: the type a wire byte stands for. */
  function FromByte(b: byte): (t: FileType)
    ensures t == Unknown <==> !IsKnownCode(b)
    ensures t != Unknown ==> Discriminant(t) == b
  {
    match b
    case 0 => Box
    case 1 => Obj
    case 2 => Map
    case 3 => HeightMap
    case 4 => Path
    case 5 => Animate
    case 6 => CarProperty
    case 7 => Mdl
    case 10 => Texture
    case _ => Unknown
  }

  /** `u8::from(FileType)`: the byte written for a type. It is the
      discriminant taken modulo 256, so `Unknown` (-1) becomes 255, which is
      not a known code; every other type maps to a known code. */
  function ToByte(t: FileType): (b: byte)
    ensures b == Discriminant(t) % 256
    ensures IsKnownCode(b) <==> t != Unknown
  {
    match t
    case Box => 0
    case Obj => 1
    case Map => 2
    case HeightMap => 3
    case Path => 4
    case Animate => 5
    case CarProperty => 6
    case Mdl => 7
    case Texture => 10
    case Unknown => 255
  }

  /** Writing a type and reading the byte back gives the same type, for all
      ten types including `Unknown` <-> 255. */
  lemma FromToByte(t: FileType)
    ensures FromByte(ToByte(t)) == t
  {
  }

  /** Reading a known code and writing the type back gives the same byte;
      on any other byte the reader and writer disagree (they give 255). */
  lemma ToFromByte(b: byte)
    ensures IsKnownCode(b) ==> ToByte(FromByte(b)) == b
    ensures !IsKnownCode(b) ==> ToByte(FromByte(b)) == 255
  {
  }

  /** Distinct types have distinct wire codes. */
  lemma ToByteInjective(s: FileType, t: FileType)
    requires ToByte(s) == ToByte(t)
    ensures s == t
  {
    FromToByte(s);
    FromToByte(t);
  }
}
