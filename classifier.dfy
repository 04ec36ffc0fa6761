/** The two-tier rule that gives a file name its asset type (the `match name`
    inside `get_file_list`). Names are the UTF-8 bytes of the file name. */
module Classifier {
  import opened Wire
  import opened FileTypes

  const DOT: byte := 0x2E

  // The byte spellings of the names and extensions the rules mention.
  const PATH_DAT: seq<byte> := [0x70, 0x61, 0x74, 0x68, 0x2E, 0x64, 0x61, 0x74]  // path.dat
  const SKY_OBJ: seq<byte> := [0x73, 0x6B, 0x79, 0x2E, 0x6F, 0x62, 0x6A]  // sky.obj
  const HEIGHTMAP_HMP: seq<byte> :=
    [0x68, 0x65, 0x69, 0x67, 0x68, 0x74, 0x6D, 0x61, 0x70, 0x2E, 0x68, 0x6D, 0x70]  // heightmap.hmp
  const ANIMATE_DAT: seq<byte> := [0x61, 0x6E, 0x69, 0x6D, 0x61, 0x74, 0x65, 0x2E, 0x64, 0x61, 0x74]  // animate.dat
  const CARPROPERTY_DAT: seq<byte> :=
    [0x63, 0x61, 0x72, 0x70, 0x72, 0x6F, 0x70, 0x65, 0x72, 0x74, 0x79, 0x2E, 0x64, 0x61, 0x74]  // carproperty.dat
  const EXT_BOX: seq<byte> := [0x62, 0x6F, 0x78]  // box
  const EXT_MAP: seq<byte> := [0x6D, 0x61, 0x70]  // map
  const EXT_PNG: seq<byte> := [0x70, 0x6E, 0x67]  // png
  const EXT_JPG: seq<byte> := [0x6A, 0x70, 0x67]  // jpg
  const EXT_DAT: seq<byte> := [0x64, 0x61, 0x74]  // dat
  const EXT_OBJ: seq<byte> := [0x6F, 0x62, 0x6A]  // obj
  const EXT_HMP: seq<byte> := [0x68, 0x6D, 0x70]  // hmp

  /** One byte lower-cased: `A`..`Z` become `a`..`z`, everything else is kept. */
  function LowerByte(b: byte): byte
  {
    if 0x41 <= b <= 0x5A then b + 0x20 else b
  }

  /** `str::to_lowercase`, on the ASCII letters. */
  function ToLower(s: seq<byte>): (r: seq<byte>)
    ensures |r| == |s|
    ensures forall i {:trigger r[i]} :: 0 <= i < |r| ==> !(0x41 <= r[i] <= 0x5A)
    ensures forall i {:trigger r[i]} :: 0 <= i < |s| && 0x41 <= s[i] <= 0x5A ==> r[i] == s[i] + 0x20
    ensures forall i {:trigger r[i]} :: 0 <= i < |s| && !(0x41 <= s[i] <= 0x5A) ==> r[i] == s[i]
  {
    seq(|s|, i requires 0 <= i < |s| => LowerByte(s[i]))
  }

  /** The last element of `s.split(".")`: the bytes after the final `.`, or
      all of `s` when it has no `.`. The result is the longest suffix of `s`
      free of `.`. */
  function LastSegment(s: seq<byte>): (r: seq<byte>)
    ensures |r| <= |s| && r == s[|s| - |r|..]
    ensures DOT !in r
    ensures |r| < |s| ==> s[|s| - |r| - 1] == DOT
  {
    if |s| == 0 then []
    else if s[|s| - 1] == DOT then []
    else LastSegment(s[..|s| - 1]) + [s[|s| - 1]]
  }

  /** The extension the second tier looks at. */
  function Extension(name: seq<byte>): seq<byte>
  {
    LastSegment(ToLower(name))
  }

  /** The five whole names the first tier recognises, case-sensitively. */
  function SpecialType(name: seq<byte>): Option<FileType>
  {
    if name == PATH_DAT then Some(Path)
    else if name == SKY_OBJ then Some(Obj)
    else if name == HEIGHTMAP_HMP then Some(HeightMap)
    else if name == ANIMATE_DAT then Some(Animate)
    else if name == CARPROPERTY_DAT then Some(CarProperty)
    else None
  }

  /** The second tier: the type of a lower-case extension. */
  function ExtensionType(ext: seq<byte>): FileType
  {
    if ext == EXT_BOX then Box
    else if ext == EXT_MAP then Map
    else if ext == EXT_PNG || ext == EXT_JPG then Texture
    else Unknown
  }

  /** The asset type of a file name: an exact special name wins; otherwise
      the extension decides. Never yields the types the rules do not
      mention (`Mdl`). */
  function Classify(name: seq<byte>): (t: FileType)
    ensures t != Mdl
    ensures SpecialType(name).Some? ==> t == SpecialType(name).value
  {
    match SpecialType(name)
    case Some(t) => t
    case None => ExtensionType(Extension(name))
  }

  /** Outside the special names, a name is a Box exactly when its
      lower-cased extension is box, and a Map exactly when it is map. */
  lemma BoxMapIff(name: seq<byte>)
    requires SpecialType(name).None?
    ensures Classify(name) == Box <==> Extension(name) == EXT_BOX
    ensures Classify(name) == Map <==> Extension(name) == EXT_MAP
  {
  }

  /** A name without any `.` is its own extension, lower-cased: `box` is a Box. */
  lemma {:induction false} NoDotIsWholeName(name: seq<byte>)
    requires DOT !in name
    ensures Extension(name) == ToLower(name)
  {
    var l := ToLower(name);
    assert DOT !in l by {
      forall i | 0 <= i < |l| ensures l[i] != DOT {
        assert name[i] != DOT;
      }
    }
    assert |LastSegment(l)| == |l|;
  }

  /** The extension is what follows the last `.`: appending `.` and a
      dot-free extension to any stem yields exactly that extension, lower-cased. */
  lemma {:induction false} ExtensionAfterLastDot(stem: seq<byte>, ext: seq<byte>)
    requires DOT !in ext
    ensures Extension(stem + [DOT] + ext) == ToLower(ext)
  {
    var name := stem + [DOT] + ext;
    var l := ToLower(name);
    var le := ToLower(ext);
    assert DOT !in le by {
      forall i | 0 <= i < |le| ensures le[i] != DOT { assert ext[i] != DOT; }
    }
    assert l[|stem|] == DOT;
    assert l[|stem| + 1..] == le;
    var r := LastSegment(l);
    // r is the longest dot-free suffix: it cannot reach back to the dot, and
    // it cannot stop before it, since everything after the dot is dot-free.
    assert |r| == |le|;
  }

  /** Lower-casing twice is lower-casing once. */
  lemma ToLowerIdempotent(s: seq<byte>)
    ensures ToLower(ToLower(s)) == ToLower(s)
  {
  }

  /** The second tier ignores case: outside the five special names, a name
      and its lower-case form have the same type (`FOO.PNG` is a Texture like
      `foo.png`). */
  lemma ExtensionIgnoresCase(name: seq<byte>)
    requires SpecialType(name).None? && SpecialType(ToLower(name)).None?
    ensures Classify(name) == Classify(ToLower(name))
  {
    ToLowerIdempotent(name);
  }

  /** A lower-case extension after the last dot is the extension as it stands. */
  lemma {:induction false} LowerExtensionAfterLastDot(stem: seq<byte>, ext: seq<byte>)
    requires DOT !in ext && forall i :: 0 <= i < |ext| ==> !(0x41 <= ext[i] <= 0x5A)
    ensures Extension(stem + [DOT] + ext) == ext
  {
    ExtensionAfterLastDot(stem, ext);
  }

  /** The extension of every special name is `dat`, `obj` or `hmp`. */
  lemma SpecialNameExtensions()
    ensures Extension(PATH_DAT) == Extension(ANIMATE_DAT) == Extension(CARPROPERTY_DAT) == EXT_DAT
    ensures Extension(SKY_OBJ) == EXT_OBJ
    ensures Extension(HEIGHTMAP_HMP) == EXT_HMP
  {
    PathDatExtension();
    AnimateDatExtension();
    CarPropertyDatExtension();
    SkyObjExtension();
    HeightMapHmpExtension();
  }

  lemma PathDatExtension()
    ensures Extension(PATH_DAT) == EXT_DAT
  {
    assert PATH_DAT == PATH_DAT[..4] + [DOT] + EXT_DAT;
    LowerExtensionAfterLastDot(PATH_DAT[..4], EXT_DAT);
  }

  lemma AnimateDatExtension()
    ensures Extension(ANIMATE_DAT) == EXT_DAT
  {
    assert ANIMATE_DAT == ANIMATE_DAT[..7] + [DOT] + EXT_DAT;
    LowerExtensionAfterLastDot(ANIMATE_DAT[..7], EXT_DAT);
  }

  lemma CarPropertyDatExtension()
    ensures Extension(CARPROPERTY_DAT) == EXT_DAT
  {
    assert CARPROPERTY_DAT == CARPROPERTY_DAT[..11] + [DOT] + EXT_DAT;
    LowerExtensionAfterLastDot(CARPROPERTY_DAT[..11], EXT_DAT);
  }

  lemma SkyObjExtension()
    ensures Extension(SKY_OBJ) == EXT_OBJ
  {
    assert SKY_OBJ == SKY_OBJ[..3] + [DOT] + EXT_OBJ;
    LowerExtensionAfterLastDot(SKY_OBJ[..3], EXT_OBJ);
  }

  lemma HeightMapHmpExtension()
    ensures Extension(HEIGHTMAP_HMP) == EXT_HMP
  {
    assert HEIGHTMAP_HMP == HEIGHTMAP_HMP[..9] + [DOT] + EXT_HMP;
    LowerExtensionAfterLastDot(HEIGHTMAP_HMP[..9], EXT_HMP);
  }

  /** The first tier wins over the extension rule: each of the five special
      names gets its own type, although `dat`, `obj` and `hmp` are no
      extensions the second tier knows. */
  lemma SpecialNamesWin()
    ensures Classify(PATH_DAT) == Path && Classify(SKY_OBJ) == Obj
    ensures Classify(HEIGHTMAP_HMP) == HeightMap && Classify(ANIMATE_DAT) == Animate
    ensures Classify(CARPROPERTY_DAT) == CarProperty
    ensures ExtensionType(Extension(PATH_DAT)) == Unknown
    ensures ExtensionType(Extension(SKY_OBJ)) == Unknown
    ensures ExtensionType(Extension(HEIGHTMAP_HMP)) == Unknown
    ensures ExtensionType(Extension(ANIMATE_DAT)) == Unknown
    ensures ExtensionType(Extension(CARPROPERTY_DAT)) == Unknown
  {
    SpecialNameExtensions();
    UnlistedSpecialExtensions();
  }

  lemma UnlistedSpecialExtensions()
    ensures ExtensionType(EXT_DAT) == Unknown && ExtensionType(EXT_OBJ) == Unknown
    ensures ExtensionType(EXT_HMP) == Unknown
  {
    assert EXT_DAT[0] != EXT_BOX[0] && EXT_DAT[0] != EXT_MAP[0] && EXT_DAT[0] != EXT_PNG[0] && EXT_DAT[0] != EXT_JPG[0];
    assert EXT_OBJ[0] != EXT_BOX[0] && EXT_OBJ[0] != EXT_MAP[0] && EXT_OBJ[0] != EXT_PNG[0] && EXT_OBJ[0] != EXT_JPG[0];
    assert EXT_HMP[0] != EXT_BOX[0] && EXT_HMP[0] != EXT_MAP[0] && EXT_HMP[0] != EXT_PNG[0] && EXT_HMP[0] != EXT_JPG[0];
  }

  /** The first tier is case-sensitive: `PATH.DAT` is not a Path but falls
      to the extension rule, which does not know `dat`. */
  lemma SpecialNamesAreCaseSensitive()
    ensures Classify([0x50, 0x41, 0x54, 0x48, 0x2E, 0x44, 0x41, 0x54]) == Unknown  // PATH.DAT
  {
    var name: seq<byte> := [0x50, 0x41, 0x54, 0x48, 0x2E, 0x44, 0x41, 0x54];
    assert Extension(name) == [0x64, 0x61, 0x74] by {
      ExtensionAfterLastDot([0x50, 0x41, 0x54, 0x48], [0x44, 0x41, 0x54]);
      assert [0x50, 0x41, 0x54, 0x48] + [DOT] + [0x44, 0x41, 0x54] == name;
      var l := ToLower([0x44, 0x41, 0x54]);
      assert l[0] == 0x64 && l[1] == 0x61 && l[2] == 0x74;
      assert l == [0x64, 0x61, 0x74];
    }
    assert SpecialType(name).None? by {
      assert name[0] != PATH_DAT[0] && name[0] != SKY_OBJ[0] && name[0] != HEIGHTMAP_HMP[0];
      assert name[0] != ANIMATE_DAT[0] && name[0] != CARPROPERTY_DAT[0];
    }
  }

  /** The extension rule ignores case: `FOO.PNG` is a Texture. */
  lemma UpperCaseImageIsTexture()
    ensures Classify([0x46, 0x4F, 0x4F, 0x2E, 0x50, 0x4E, 0x47]) == Texture  // FOO.PNG
  {
    var name: seq<byte> := [0x46, 0x4F, 0x4F, 0x2E, 0x50, 0x4E, 0x47];
    assert Extension(name) == EXT_PNG by {
      ExtensionAfterLastDot([0x46, 0x4F, 0x4F], [0x50, 0x4E, 0x47]);
      assert [0x46, 0x4F, 0x4F] + [DOT] + [0x50, 0x4E, 0x47] == name;
      var l := ToLower([0x50, 0x4E, 0x47]);
      assert l[0] == 0x70 && l[1] == 0x6E && l[2] == 0x67;
      assert l == EXT_PNG;
    }
    assert SpecialType(name).None? by {
      assert name[0] != PATH_DAT[0] && name[0] != SKY_OBJ[0] && name[0] != HEIGHTMAP_HMP[0];
      assert name[0] != ANIMATE_DAT[0] && name[0] != CARPROPERTY_DAT[0];
    }
  }

  /** A dot-free name is classified by itself: `box` is a Box, `MAP` a Map. */
  lemma DotFreeNames()
    ensures Classify(EXT_BOX) == Box
    ensures Classify([0x4D, 0x41, 0x50]) == Map  // MAP
  {
    LowerBoxIsBox();
    UpperMapIsMap();
  }

  lemma LowerBoxIsBox()
    ensures Classify(EXT_BOX) == Box
  {
    NoDotIsWholeName(EXT_BOX);
    var l := ToLower(EXT_BOX);
    assert l[0] == 0x62 && l[1] == 0x6F && l[2] == 0x78;
    assert l == EXT_BOX;
  }

  lemma UpperMapIsMap()
    ensures Classify([0x4D, 0x41, 0x50]) == Map
  {
    NoDotIsWholeName([0x4D, 0x41, 0x50]);
    var l := ToLower([0x4D, 0x41, 0x50]);
    assert l[0] == 0x6D && l[1] == 0x61 && l[2] == 0x70;
    assert l == EXT_MAP;
  }

  /** An extension outside the list is Unknown, even one naming a type
      (`x.mdl`): no name ever classifies as Mdl. */
  lemma UnlistedExtensionIsUnknown()
    ensures Classify([0x78, 0x2E, 0x6D, 0x64, 0x6C]) == Unknown  // x.mdl
  {
    ExtensionAfterLastDot([0x78], [0x6D, 0x64, 0x6C]);
    assert [0x78] + [DOT] + [0x6D, 0x64, 0x6C] == [0x78, 0x2E, 0x6D, 0x64, 0x6C];
  }

  /** A name is a texture exactly when its extension is `png` or `jpg`, in
      any case (none of the special names is a texture). */
  lemma TextureIffImageExtension(name: seq<byte>)
    ensures Classify(name) == Texture <==> Extension(name) == EXT_PNG || Extension(name) == EXT_JPG
  {
    if SpecialType(name).Some? {
      SpecialExtensionNotImage(name);
    }
  }

  lemma SpecialExtensionNotImage(name: seq<byte>)
    requires SpecialType(name).Some?
    ensures Extension(name) != EXT_PNG && Extension(name) != EXT_JPG
  {
    SpecialExtension(name);
    var x := Extension(name);
    assert x[0] != EXT_PNG[0] && x[0] != EXT_JPG[0];
  }

  /** A special name's extension is `dat`, `obj` or `hmp`. */
  lemma SpecialExtension(name: seq<byte>)
    requires SpecialType(name).Some?
    ensures Extension(name) == EXT_DAT || Extension(name) == EXT_OBJ || Extension(name) == EXT_HMP
  {
    if name == PATH_DAT {
      PathDatExtension();
    } else if name == SKY_OBJ {
      SkyObjExtension();
    } else if name == HEIGHTMAP_HMP {
      HeightMapHmpExtension();
    } else if name == ANIMATE_DAT {
      AnimateDatExtension();
    } else {
      CarPropertyDatExtension();
    }
  }

  /** A name is dropped as Unknown exactly when it is not a special name and
      its extension is none of box, map, png, jpg. */
  lemma UnknownIff(name: seq<byte>)
    ensures Classify(name) == Unknown <==>
      SpecialType(name).None? && Extension(name) !in {EXT_BOX, EXT_MAP, EXT_PNG, EXT_JPG}
  {
  }
}
