/** Worked instances of the lookups: pinned hash values, and small
    loaded-images and class-cache tables laid out in memory by hand. */
module MonoScenarios {
  import opened MachineWords
  import opened RemoteMemory
  import opened Mono

  /** g_str_hash("mscorlib"), pinned; the same loop runs in Mono's eglib. */
  lemma StrHashMscorlib()
    ensures StrHash([109, 115, 99, 111, 114, 108, 105, 98]) == 0x1cec_db32
  {
    var s: Str := [109, 115, 99, 111, 114, 108, 105, 98];
    assert s[1..] == [115, 99, 111, 114, 108, 105, 98];
    assert HashFold([115]) == 0xffff_ff8d;
    assert [115, 99][..1] == [115];
    assert HashFold([115, 99]) == 0xffff_f1b0;
    assert [115, 99, 111][..2] == [115, 99];
    assert HashFold([115, 99, 111]) == 0xfffe_43e1;
    assert [115, 99, 111, 114][..3] == [115, 99, 111];
    assert HashFold([115, 99, 111, 114]) == 0xffca_37cd;
    assert [115, 99, 111, 114, 108][..4] == [115, 99, 111, 114];
    assert HashFold([115, 99, 111, 114, 108]) == 0xf97c_c167;
    assert [115, 99, 111, 114, 108, 105][..5] == [115, 99, 111, 114, 108];
    assert HashFold([115, 99, 111, 114, 108, 105]) == 0x361b_6b10;
    assert [115, 99, 111, 114, 108, 105, 98][..6] == [115, 99, 111, 114, 108, 105];
    assert HashFold([115, 99, 111, 114, 108, 105, 98]) == 0x8d51_f68e;
  }

  /** g_str_hash("System"), pinned; the same loop runs in Mono's eglib. */
  lemma StrHashSystem()
    ensures StrHash([83, 121, 115, 116, 101, 109]) == 0x2afa_ca82
  {
    var s: Str := [83, 121, 115, 116, 101, 109];
    assert s[1..] == [121, 115, 116, 101, 109];
    assert HashFold([121]) == 0xffff_ff87;
    assert [121, 115][..1] == [121];
    assert HashFold([121, 115]) == 0xffff_f0e6;
    assert [121, 115, 116][..2] == [121, 115];
    assert HashFold([121, 115, 116]) == 0xfffe_2b66;
    assert [121, 115, 116, 101][..3] == [121, 115, 116];
    assert HashFold([121, 115, 116, 101]) == 0xffc7_40f5;
    assert [121, 115, 116, 101, 109][..4] == [121, 115, 116, 101];
    assert HashFold([121, 115, 116, 101, 109]) == 0xf920_dd3e;
  }

  /** Folding one more character into a prefix whose hash is known. */
  lemma FoldOne(s: Str, c: CodeUnit, h: UInt32)
    requires HashFold(s) == h
    ensures HashFold(s + [c]) == HashStep(h, c)
  {
    assert (s + [c])[..|s|] == s;
  }

  /** g_str_hash("Assembly-CSharp"), pinned; the same loop runs in Mono's eglib. */
  lemma StrHashAssemblyCSharp()
    ensures StrHash([65, 115, 115, 101, 109, 98, 108, 121, 45, 67, 83, 104, 97, 114, 112]) == 0xfa38_1aed
  {
    var s: Str := [65, 115, 115, 101, 109, 98, 108, 121, 45, 67, 83, 104, 97, 114, 112];
    var p: Str := [];
    FoldOne(p, 115, 0); p := p + [115];
    FoldOne(p, 115, 0xffff_ff8d); p := p + [115];
    FoldOne(p, 101, 0xffff_f1a0); p := p + [101];
    FoldOne(p, 109, 0xfffe_41fb); p := p + [109];
    FoldOne(p, 98, 0xffc9_fcf8); p := p + [98];
    FoldOne(p, 108, 0xf975_a1a6); p := p + [108];
    FoldOne(p, 121, 0x353e_92ae); p := p + [121];
    FoldOne(p, 45, 0x7293_c299); p := p + [45];
    FoldOne(p, 67, 0xdfe4_905a); p := p + [67];
    FoldOne(p, 83, 0x1cad_7aa3); p := p + [83];
    FoldOne(p, 104, 0x7901_d96a); p := p + [104];
    FoldOne(p, 97, 0xa739_536e); p := p + [97];
    FoldOne(p, 114, 0x3ff1_19f1); p := p + [114];
    FoldOne(p, 112, 0xbe32_23bd); p := p + [112];
    assert HashFold(p) == 0x0812_5373;
    assert s[1..] == p;
  }

  /** g_str_hash("UnityEngine"), pinned; the same loop runs in Mono's eglib. */
  lemma StrHashUnityEngine()
    ensures StrHash([85, 110, 105, 116, 121, 69, 110, 103, 105, 110, 101]) == 0x878b_63a2
  {
    var s: Str := [85, 110, 105, 116, 121, 69, 110, 103, 105, 110, 101];
    var p: Str := [];
    FoldOne(p, 110, 0); p := p + [110];
    FoldOne(p, 105, 0xffff_ff92); p := p + [105];
    FoldOne(p, 116, 0xffff_f245); p := p + [116];
    FoldOne(p, 121, 0xfffe_55e7); p := p + [121];
    FoldOne(p, 69, 0xffcc_6680); p := p + [69];
    FoldOne(p, 110, 0xf9c0_693b); p := p + [110];
    FoldOne(p, 103, 0x3e4c_bdb7); p := p + [103];
    FoldOne(p, 105, 0x8b4a_f8c2); p := p + [105];
    FoldOne(p, 110, 0xde14_1f15); p := p + [110];
    FoldOne(p, 101, 0xe46f_c31d); p := p + [101];
    assert HashFold(p) == 0xa988_a01e;
    assert s[1..] == p;
  }

  const ImagesTable: Addr := 0x9000
  const BucketArray: Addr := 0x8000

  /** A four-bucket loaded-images table whose bucket 0 chains an entry
      named "A" (image 0x1000) to one named "B" (image 0x2000). */
  const ImagesMemory: Memory := Memory(
    map[BucketArray := 0x3000,
        0x3000 := 0x3100, 0x3008 := 0x1000, 0x3010 := 0x4000,
        0x4000 := 0x4100, 0x4008 := 0x2000],
    map[ImagesTable + 0x18 := 4],
    map[0x3100 := [65], 0x4100 := [66]])

  /** Both images are found through the chain; "C" hashes to the same
      bucket and is not. */
  lemma ImageScenario()
    ensures forall c: CodeUnit :: ImageChainEnds(ImagesMemory, Helper(ImagesTable, SourceLayout), BucketArray, [c])
    ensures ImageLookup(ImagesMemory, Helper(ImagesTable, SourceLayout), BucketArray, [65]) == Returned(true, 0x1000)
    ensures ImageLookup(ImagesMemory, Helper(ImagesTable, SourceLayout), BucketArray, [66]) == Returned(true, 0x2000)
    ensures ImageLookup(ImagesMemory, Helper(ImagesTable, SourceLayout), BucketArray, [67]) == Returned(false, 0)
  {
    var m, mono := ImagesMemory, Helper(ImagesTable, SourceLayout);
    var nodes := [0x3000, 0x4000];
    assert LoadedImagesHashTableSize(m, mono) == 4;
    forall c: CodeUnit
      ensures WalksImageChain(m, mono, [c])
      ensures IsChain(m, mono.layout.imageNextOffset, ImageBucketHead(m, mono, BucketArray, [c]), nodes)
      ensures ImageName(m, mono, 0x3000) == [65] && ImageName(m, mono, 0x4000) == [66]
    {
      StrHashSingle(c);
      assert ImageBucketHead(m, mono, BucketArray, [c]) == 0x3000;
      assert IsChain(m, mono.layout.imageNextOffset, 0x4000, nodes[1..]);
    }
    ImageFound(m, mono, BucketArray, [65], nodes);
    ImageFound(m, mono, BucketArray, [66], nodes);
    ImageFound(m, mono, BucketArray, [67], nodes);
  }

  const Image: Addr := 0x5000

  /** A one-bucket class cache of `Image` holding class 0xA000 (token
      0x02000001) followed by class 0xB000 (token 0x02000002). */
  const ClassMemory: Memory := Memory(
    map[Image + 0x04C0 + 0x20 := 0x6000, 0x6000 := 0xA000, 0xA000 + 0x108 := 0xB000],
    map[Image + 0x04C0 + 0x18 := 1, 0xA000 + 0x58 := 0x0200_0001, 0xB000 + 0x58 := 0x0200_0002],
    map[])

  /** Both classes are found, the second behind the first in the chain;
      an absent TypeDef token is not found and a MethodDef token is refused. */
  lemma ClassScenario()
    ensures forall token: UInt32 :: ClassChainEnds(ClassMemory, Helper(0, SourceLayout), Image, token)
    ensures ClassLookup(ClassMemory, Helper(0, SourceLayout), Image, 0x0200_0001) == Returned(true, 0xA000)
    ensures ClassLookup(ClassMemory, Helper(0, SourceLayout), Image, 0x0200_0002) == Returned(true, 0xB000)
    ensures ClassLookup(ClassMemory, Helper(0, SourceLayout), Image, 0x0200_0099) == Returned(false, 0)
    ensures ClassLookup(ClassMemory, Helper(0, SourceLayout), Image, 0x0100_0001) == Returned(false, 0)
  {
    var m, mono := ClassMemory, Helper(0, SourceLayout);
    var nodes := [0xA000, 0xB000];
    assert ClassCacheSize(m, mono, Image) == 1;
    assert ClassCacheTable(m, mono, Image) == 0x6000;
    forall token: UInt32 | IsTypeDefToken(token)
      ensures WalksClassChain(m, mono, Image, token)
      ensures IsChain(m, mono.layout.classNextOffset, ClassBucketHead(m, mono, Image, token), nodes)
    {
      assert ClassBucket(m, mono, Image, token) == 0;
      assert ClassBucketHead(m, mono, Image, token) == 0xA000;
      assert IsChain(m, mono.layout.classNextOffset, 0xB000, nodes[1..]);
    }
    assert ClassKey(m, mono, 0xA000) == 0x0200_0001 && ClassKey(m, mono, 0xB000) == 0x0200_0002;
    ClassFound(m, mono, Image, 0x0200_0001, nodes);
    ClassFound(m, mono, Image, 0x0200_0002, nodes);
    ClassFound(m, mono, Image, 0x0200_0099, nodes);
    ClassRejectsKind(m, m, mono, Image, 0x0100_0001);
  }
}
