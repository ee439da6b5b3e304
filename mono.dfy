/** The Mono introspection helper: glib's string hash, the lookup of a
    loaded image by name in Mono's loaded-images hash table, and the lookup
    of a class by TypeDef metadata token in an image's class cache. Every
    operation reads the target's memory and never writes it. */
module Mono {
  import opened MachineWords
  import opened RemoteMemory

  /** The version-pinned offsets into Mono's private structures, and the
      bound on image names read from the target. */
  datatype Layout = Layout(
    imagesSizeOffset: Int32,       // bucket count, in the loaded-images hash table
    imageValueOffset: Int32,       // the MonoImage pointer, in a hash entry
    imageNextOffset: Int32,        // the next entry, in a hash entry
    classCacheOffset: Int32,       // the class cache, in a MonoImage
    classCacheSizeOffset: Int32,   // bucket count, in the class cache
    classCacheTableOffset: Int32,  // the bucket array pointer, in the class cache
    classKeyOffset: Int32,         // the token, in a class
    classNextOffset: Int32,        // the next class of the bucket, in a class
    maxStringSize: nat)

  /** The values the helper is built with. */
  const SourceLayout: Layout := Layout(0x18, 0x08, 0x10, 0x04C0, 0x18, 0x20, 0x58, 0x0108, 2048)

  /** Bytes per slot of a bucket array: the width of a pointer. */
  const SlotSize: int := 8

  /** The helper's state, fixed once it is built: the address of the
      loaded-images hash table (null if it could not be read) and the
      layout it reads structures with. */
  datatype Helper = Helper(loadedImagesHash: Addr, layout: Layout)

  /** The exceptions a lookup lets escape to its caller. */
  datatype Exception = ArgumentOutOfRange | DivideByZero

  /** A lookup either returns its `bool` with its `out` pointer, or throws. */
  datatype Outcome = Returned(found: bool, value: Addr) | Threw(exception: Exception)

  // ---------------------------------------------------------------------
  // g_str_hash

  /** One character folded in: `hash = (hash << 5) - (hash + p)` on `uint`. */
  function HashStep(h: UInt32, c: CodeUnit): UInt32
  {
    WrapUInt32(WrapUInt32(h * 32) - WrapUInt32(h + c))
  }

  /** The hash accumulated over `s`, from 0, one character at a time. */
  function HashFold(s: Str): UInt32
    decreases |s|
  {
    if s == [] then 0 else HashStep(HashFold(s[..|s| - 1]), s[|s| - 1])
  }

  /** The closing fold standing in for C's terminating null:
      `hash = (hash << 5) - hash`. */
  function NullFold(h: UInt32): UInt32
  {
    WrapUInt32(WrapUInt32(h * 32) - h)
  }

  /** g_str_hash: the first character is skipped, the rest folded in, and
      the null terminator's fold applied. `Substring(1)` throws on "". */
  function StrHash(v1: Str): UInt32
    requires v1 != []
  {
    NullFold(HashFold(v1[1..]))
  }

  method GStrHash(v1: Str) returns (hash: UInt32)
    requires v1 != []
    ensures hash == StrHash(v1)
  {
    var rest := v1[1..];
    hash := 0;
    for i := 0 to |rest|
      invariant hash == HashFold(rest[..i])
    {
      assert rest[..i + 1][..i] == rest[..i];
      hash := HashStep(hash, rest[i]);
    }
    assert rest[..|rest|] == rest;
    hash := NullFold(hash);
  }

  /** The hash as a plain polynomial: each step multiplies by 31 and
      subtracts the character, with no reduction. */
  function Poly(s: Str): int
    decreases |s|
  {
    if s == [] then 0 else 31 * Poly(s[..|s| - 1]) - s[|s| - 1]
  }

  lemma ModShift(y: int, k: int)
    ensures (y - TwoTo32 * k) % TwoTo32 == y % TwoTo32
  {
  }

  /** The shift and the two wrapping operations of a step amount to
      `31 * h - c` modulo 2^32, whatever unreduced value `h` stands for. */
  lemma HashStepArith(x: int, c: CodeUnit)
    ensures HashStep(x % TwoTo32, c) == (31 * x - c) % TwoTo32
  {
  }

  /** The 32-bit hash is the polynomial reduced modulo 2^32. */
  lemma {:induction false} HashFoldIsPoly(s: Str)
    ensures HashFold(s) == Poly(s) % TwoTo32
    decreases |s|
  {
    if s != [] {
      var init := s[..|s| - 1];
      HashFoldIsPoly(init);
      HashStepArith(Poly(init), s[|s| - 1]);
    }
  }

  /** g_str_hash in closed form: 31 times the polynomial of every character
      after the first, modulo 2^32. */
  lemma StrHashIsPoly(v1: Str)
    requires v1 != []
    ensures StrHash(v1) == (31 * Poly(v1[1..])) % TwoTo32
  {
    var p := Poly(v1[1..]);
    HashFoldIsPoly(v1[1..]);
    var h := p % TwoTo32;
    assert p == TwoTo32 * (p / TwoTo32) + h;
    assert WrapUInt32(h * 32) == h * 32 - TwoTo32 * ((h * 32) / TwoTo32);
    ModShift(31 * h, (h * 32) / TwoTo32);
    ModShift(31 * p, 31 * (p / TwoTo32));
  }

  /** The first character never matters: strings that differ only there
      hash equally. */
  lemma StrHashIgnoresFirst(v: Str, w: Str)
    requires v != [] && w != [] && v[1..] == w[1..]
    ensures StrHash(v) == StrHash(w)
  {
  }

  /** Every one-character string hashes to 0. */
  lemma StrHashSingle(c: CodeUnit)
    ensures StrHash([c]) == 0
  {
  }

  // ---------------------------------------------------------------------
  // GetLoadedImagesHashTableSize and GetImage

  /** The bucket count of the loaded-images hash table, a signed `int`. */
  function LoadedImagesHashTableSize(m: Memory, mono: Helper): (size: Int32)
    ensures ToUInt32(size) == ReadUInt32(m, AddOffset(mono.loadedImagesHash, mono.layout.imagesSizeOffset))
  {
    ReadInt32(m, AddOffset(mono.loadedImagesHash, mono.layout.imagesSizeOffset))
  }

  /** GetImage gets past its early exits: the table is there, the key can
      be hashed, and the bucket count is not zero. */
  predicate WalksImageChain(m: Memory, mono: Helper, key: Str)
  {
    mono.loadedImagesHash != 0 && key != [] && ToUInt32(LoadedImagesHashTableSize(m, mono)) != 0
  }

  /** The bucket of `key`: `g_str_hash(key) % (uint)size`. */
  function ImageBucket(m: Memory, mono: Helper, key: Str): UInt32
    requires WalksImageChain(m, mono, key)
  {
    StrHash(key) % ToUInt32(LoadedImagesHashTableSize(m, mono))
  }

  /** The first entry of `key`'s bucket, read from slot
      `table + (int)(hashcode * 8)`. */
  function ImageBucketHead(m: Memory, mono: Helper, table: Addr, key: Str): Addr
    requires WalksImageChain(m, mono, key)
  {
    ReadPointer(m, AddOffset(table, ToInt32(WrapUInt32(ImageBucket(m, mono, key) * SlotSize))))
  }

  /** The name of hash entry `s`: the bounded C string its first field points to. */
  function ImageName(m: Memory, mono: Helper, s: Addr): Str
  {
    ReadCString(m, ReadPointer(m, s), mono.layout.maxStringSize)
  }

  /** Whether an entry's name is `key`. */
  function NameIs(m: Memory, mono: Helper, key: Str): Addr -> bool
  {
    (s: Addr) => ImageName(m, mono, s) == key
  }

  /** The bucket chain GetImage walks ends, whenever it walks one. */
  ghost predicate ImageChainEnds(m: Memory, mono: Helper, table: Addr, key: Str)
  {
    WalksImageChain(m, mono, key) ==> Ends(m, mono.layout.imageNextOffset, ImageBucketHead(m, mono, table, key))
  }

  /** The entries of `key`'s bucket, in chain order. */
  ghost function ImageChain(m: Memory, mono: Helper, table: Addr, key: Str): seq<Addr>
    requires WalksImageChain(m, mono, key) && ImageChainEnds(m, mono, table, key)
  {
    Chain(m, mono.layout.imageNextOffset, ImageBucketHead(m, mono, table, key))
  }

  /** What GetImage does, given the bucket array `table`. */
  ghost function ImageLookup(m: Memory, mono: Helper, table: Addr, key: Str): Outcome
    requires ImageChainEnds(m, mono, table, key)
  {
    if mono.loadedImagesHash == 0 then Returned(false, 0)
    else if key == [] then Threw(ArgumentOutOfRange)
    else if ToUInt32(LoadedImagesHashTableSize(m, mono)) == 0 then Threw(DivideByZero)
    else
      var nodes := ImageChain(m, mono, table, key);
      match FindFirst(nodes, NameIs(m, mono, key))
      case Some(i) => Returned(true, ReadPointer(m, AddOffset(nodes[i], mono.layout.imageValueOffset)))
      case None => Returned(false, 0)
  }

  /** Finds the MonoImage named `key` in the loaded-images hash table whose
      bucket array is at `table`. */
  method GetImage(m: Memory, mono: Helper, table: Addr, key: Str) returns (r: Outcome)
    requires ImageChainEnds(m, mono, table, key)
    ensures r == ImageLookup(m, mono, table, key)
  {
    if mono.loadedImagesHash == 0 {
      return Returned(false, 0);
    }
    var size := LoadedImagesHashTableSize(m, mono);
    if key == [] {
      return Threw(ArgumentOutOfRange);
    }
    var hash := GStrHash(key);
    if ToUInt32(size) == 0 {
      return Threw(DivideByZero);
    }
    var hashcode := hash % ToUInt32(size);
    var s := ReadPointer(m, AddOffset(table, ToInt32(WrapUInt32(hashcode * SlotSize))));
    ghost var nodes := ImageChain(m, mono, table, key);
    ghost var k := 0;
    while s != 0
      invariant k <= |nodes|
      invariant IsChain(m, mono.layout.imageNextOffset, s, nodes[k..])
      invariant forall j :: 0 <= j < k ==> !NameIs(m, mono, key)(nodes[j])
      decreases |nodes| - k
    {
      var strPtr := ReadPointer(m, s);
      var str := ReadCString(m, strPtr, mono.layout.maxStringSize);
      if str == key {
        assert NameIs(m, mono, key)(nodes[k]);
        return Returned(true, ReadPointer(m, AddOffset(s, mono.layout.imageValueOffset)));
      }
      s := ReadPointer(m, AddOffset(s, mono.layout.imageNextOffset));
      k := k + 1;
    }
    return Returned(false, 0);
  }

  /** With no loaded-images table the lookup fails, whatever memory holds:
      it reads neither the bucket count nor any bucket. */
  lemma ImageWithoutTable(m: Memory, m': Memory, mono: Helper, table: Addr, table': Addr, key: Str)
    requires mono.loadedImagesHash == 0
    ensures ImageLookup(m, mono, table, key) == Returned(false, 0)
    ensures ImageLookup(m', mono, table', key) == ImageLookup(m, mono, table, key)
  {
  }

  /** GetImage throws exactly when the table is there and either the key is
      empty (the hash's `Substring(1)`) or the bucket count is 0. */
  lemma ImageThrows(m: Memory, mono: Helper, table: Addr, key: Str)
    requires ImageChainEnds(m, mono, table, key)
    ensures ImageLookup(m, mono, table, key).Threw? <==>
      mono.loadedImagesHash != 0 && (key == [] || ToUInt32(LoadedImagesHashTableSize(m, mono)) == 0)
    ensures mono.loadedImagesHash != 0 && key == [] ==> ImageLookup(m, mono, table, key) == Threw(ArgumentOutOfRange)
  {
  }

  /** The bucket is always a valid index of the table when its size is positive. */
  lemma ImageBucketInRange(m: Memory, mono: Helper, key: Str)
    requires WalksImageChain(m, mono, key)
    requires LoadedImagesHashTableSize(m, mono) > 0
    ensures ImageBucket(m, mono, key) < LoadedImagesHashTableSize(m, mono)
  {
  }

  /** Reading through any node list of the bucket's chain, GetImage finds
      the image exactly when some entry of the chain is named `key`; it then
      returns the image field of the first such entry, and otherwise
      returns false with a null pointer. */
  lemma ImageFound(m: Memory, mono: Helper, table: Addr, key: Str, nodes: seq<Addr>)
    requires WalksImageChain(m, mono, key)
    requires IsChain(m, mono.layout.imageNextOffset, ImageBucketHead(m, mono, table, key), nodes)
    ensures ImageChainEnds(m, mono, table, key)
    ensures ImageLookup(m, mono, table, key).Returned?
    ensures ImageLookup(m, mono, table, key).found <==>
      exists j :: 0 <= j < |nodes| && ImageName(m, mono, nodes[j]) == key
    ensures !ImageLookup(m, mono, table, key).found ==> ImageLookup(m, mono, table, key).value == 0
    ensures ImageLookup(m, mono, table, key).found ==>
      exists j :: 0 <= j < |nodes| && ImageName(m, mono, nodes[j]) == key
        && (forall i :: 0 <= i < j ==> ImageName(m, mono, nodes[i]) != key)
        && ImageLookup(m, mono, table, key).value == ReadPointer(m, AddOffset(nodes[j], mono.layout.imageValueOffset))
  {
    assert Ends(m, mono.layout.imageNextOffset, ImageBucketHead(m, mono, table, key));
    ChainUnique(m, mono.layout.imageNextOffset, ImageBucketHead(m, mono, table, key), nodes, ImageChain(m, mono, table, key));
    var p := NameIs(m, mono, key);
    match FindFirst(nodes, p)
    case Some(j) =>
      assert p(nodes[j]);
    case None =>
      assert forall j :: 0 <= j < |nodes| ==> !p(nodes[j]);
  }

  /** Names are read with a bound, so a key longer than the bound is never found. */
  lemma ImageKeyTooLong(m: Memory, mono: Helper, table: Addr, key: Str)
    requires ImageChainEnds(m, mono, table, key)
    requires |key| > mono.layout.maxStringSize
    ensures !(ImageLookup(m, mono, table, key).Returned? && ImageLookup(m, mono, table, key).found)
  {
    if WalksImageChain(m, mono, key) {
      var nodes := ImageChain(m, mono, table, key);
      var p := NameIs(m, mono, key);
      forall j | 0 <= j < |nodes| ensures !p(nodes[j]) {
        assert |ImageName(m, mono, nodes[j])| <= mono.layout.maxStringSize;
      }
    }
  }

  // ---------------------------------------------------------------------
  // GetClass

  /** `token & 0xff000000`: the token with all but its top byte cleared. */
  function TopByteMask(token: UInt32): UInt32
  {
    token - token % 0x100_0000
  }

  /** The token names a row of the TypeDef table (table 0x02 of ECMA-335
      Partition II, section 22): its top byte is 0x02. */
  predicate IsTypeDefToken(token: UInt32)
  {
    TopByteMask(token) == 0x0200_0000
  }

  /** The TypeDef tokens are exactly those from 0x02000000 to 0x02ffffff. */
  lemma TypeDefTokenRange(token: UInt32)
    ensures IsTypeDefToken(token) <==> 0x0200_0000 <= token < 0x0300_0000
  {
  }

  /** The class cache embedded in `image`. */
  function ClassCache(mono: Helper, image: Addr): Addr
  {
    AddOffset(image, mono.layout.classCacheOffset)
  }

  /** The class cache's bucket count, a signed `int`. */
  function ClassCacheSize(m: Memory, mono: Helper, image: Addr): Int32
  {
    ReadInt32(m, AddOffset(ClassCache(mono, image), mono.layout.classCacheSizeOffset))
  }

  /** The class cache's bucket array. */
  function ClassCacheTable(m: Memory, mono: Helper, image: Addr): Addr
  {
    ReadPointer(m, AddOffset(ClassCache(mono, image), mono.layout.classCacheTableOffset))
  }

  /** GetClass gets past its early exits: the token is a TypeDef token and
      the bucket count is not zero. */
  predicate WalksClassChain(m: Memory, mono: Helper, image: Addr, token: UInt32)
  {
    IsTypeDefToken(token) && ToUInt32(ClassCacheSize(m, mono, image)) != 0
  }

  /** The bucket of `token`: `(int)(token % (uint)size)`. */
  function ClassBucket(m: Memory, mono: Helper, image: Addr, token: UInt32): Int32
    requires WalksClassChain(m, mono, image, token)
  {
    ToInt32(token % ToUInt32(ClassCacheSize(m, mono, image)))
  }

  /** The first class of `token`'s bucket, read from slot `table + (8 * bucket)`. */
  function ClassBucketHead(m: Memory, mono: Helper, image: Addr, token: UInt32): Addr
    requires WalksClassChain(m, mono, image, token)
  {
    ReadPointer(m, AddOffset(ClassCacheTable(m, mono, image), WrapInt32(SlotSize * ClassBucket(m, mono, image, token))))
  }

  /** The token stored in class `klass`. */
  function ClassKey(m: Memory, mono: Helper, klass: Addr): UInt32
  {
    ReadUInt32(m, AddOffset(klass, mono.layout.classKeyOffset))
  }

  /** Whether a class's stored token is `token`. */
  function KeyIs(m: Memory, mono: Helper, token: UInt32): Addr -> bool
  {
    (klass: Addr) => ClassKey(m, mono, klass) == token
  }

  /** The bucket chain GetClass walks ends, whenever it walks one. */
  ghost predicate ClassChainEnds(m: Memory, mono: Helper, image: Addr, token: UInt32)
  {
    WalksClassChain(m, mono, image, token) ==> Ends(m, mono.layout.classNextOffset, ClassBucketHead(m, mono, image, token))
  }

  /** The classes of `token`'s bucket, in chain order. */
  ghost function ClassChain(m: Memory, mono: Helper, image: Addr, token: UInt32): seq<Addr>
    requires WalksClassChain(m, mono, image, token) && ClassChainEnds(m, mono, image, token)
  {
    Chain(m, mono.layout.classNextOffset, ClassBucketHead(m, mono, image, token))
  }

  /** What GetClass does. */
  ghost function ClassLookup(m: Memory, mono: Helper, image: Addr, token: UInt32): Outcome
    requires ClassChainEnds(m, mono, image, token)
  {
    if !IsTypeDefToken(token) then Returned(false, 0)
    else if ToUInt32(ClassCacheSize(m, mono, image)) == 0 then Threw(DivideByZero)
    else
      var nodes := ClassChain(m, mono, image, token);
      match FindFirst(nodes, KeyIs(m, mono, token))
      case Some(i) => Returned(true, nodes[i])
      case None => Returned(false, 0)
  }

  /** Finds the class of TypeDef token `token` in the class cache of `image`. */
  method GetClass(m: Memory, mono: Helper, image: Addr, token: UInt32) returns (r: Outcome)
    requires ClassChainEnds(m, mono, image, token)
    ensures r == ClassLookup(m, mono, image, token)
  {
    if TopByteMask(token) != 0x0200_0000 {
      return Returned(false, 0);
    }
    var classCache := AddOffset(image, mono.layout.classCacheOffset);
    var size := ReadInt32(m, AddOffset(classCache, mono.layout.classCacheSizeOffset));
    var table := ReadPointer(m, AddOffset(classCache, mono.layout.classCacheTableOffset));
    if ToUInt32(size) == 0 {
      return Threw(DivideByZero);
    }
    var bucket := ToInt32(token % ToUInt32(size));
    var value := ReadPointer(m, AddOffset(table, WrapInt32(SlotSize * bucket)));
    ghost var nodes := ClassChain(m, mono, image, token);
    ghost var k := 0;
    while value != 0
      invariant k <= |nodes|
      invariant IsChain(m, mono.layout.classNextOffset, value, nodes[k..])
      invariant forall j :: 0 <= j < k ==> !KeyIs(m, mono, token)(nodes[j])
      decreases |nodes| - k
    {
      var key := ReadUInt32(m, AddOffset(value, mono.layout.classKeyOffset));
      if key == token {
        assert KeyIs(m, mono, token)(nodes[k]);
        return Returned(true, value);
      }
      value := ReadPointer(m, AddOffset(value, mono.layout.classNextOffset));
      k := k + 1;
    }
    return Returned(false, 0);
  }

  /** A token that is not a TypeDef token is refused with a null class,
      whatever memory holds: nothing is read before the refusal. */
  lemma ClassRejectsKind(m: Memory, m': Memory, mono: Helper, image: Addr, token: UInt32)
    requires !IsTypeDefToken(token)
    ensures ClassLookup(m, mono, image, token) == Returned(false, 0)
    ensures ClassLookup(m', mono, image, token) == ClassLookup(m, mono, image, token)
  {
  }

  /** GetClass throws exactly when a TypeDef token meets a bucket count of 0. */
  lemma ClassThrows(m: Memory, mono: Helper, image: Addr, token: UInt32)
    requires ClassChainEnds(m, mono, image, token)
    ensures ClassLookup(m, mono, image, token).Threw? <==>
      IsTypeDefToken(token) && ToUInt32(ClassCacheSize(m, mono, image)) == 0
  {
  }

  /** The bucket is always a valid index of the table when its size is positive. */
  lemma ClassBucketInRange(m: Memory, mono: Helper, image: Addr, token: UInt32)
    requires WalksClassChain(m, mono, image, token)
    requires ClassCacheSize(m, mono, image) > 0
    ensures 0 <= ClassBucket(m, mono, image, token) < ClassCacheSize(m, mono, image)
  {
  }

  /** Reading through any node list of the bucket's chain, GetClass finds a
      class exactly when some class of the chain stores `token`; what it
      returns is then the first such class itself, a non-null node, and
      otherwise a null pointer with false. */
  lemma ClassFound(m: Memory, mono: Helper, image: Addr, token: UInt32, nodes: seq<Addr>)
    requires WalksClassChain(m, mono, image, token)
    requires IsChain(m, mono.layout.classNextOffset, ClassBucketHead(m, mono, image, token), nodes)
    ensures ClassChainEnds(m, mono, image, token)
    ensures ClassLookup(m, mono, image, token).Returned?
    ensures ClassLookup(m, mono, image, token).found <==>
      exists j :: 0 <= j < |nodes| && ClassKey(m, mono, nodes[j]) == token
    ensures !ClassLookup(m, mono, image, token).found ==> ClassLookup(m, mono, image, token).value == 0
    ensures ClassLookup(m, mono, image, token).found ==>
      exists j :: 0 <= j < |nodes| && nodes[j] == ClassLookup(m, mono, image, token).value
        && ClassKey(m, mono, nodes[j]) == token
        && (forall i :: 0 <= i < j ==> ClassKey(m, mono, nodes[i]) != token)
    ensures ClassLookup(m, mono, image, token).found ==> ClassLookup(m, mono, image, token).value != 0
  {
    assert Ends(m, mono.layout.classNextOffset, ClassBucketHead(m, mono, image, token));
    ChainIsLinkedList(m, mono.layout.classNextOffset, ClassBucketHead(m, mono, image, token), nodes);
    ChainUnique(m, mono.layout.classNextOffset, ClassBucketHead(m, mono, image, token), nodes, ClassChain(m, mono, image, token));
    var p := KeyIs(m, mono, token);
    match FindFirst(nodes, p)
    case Some(j) =>
      assert p(nodes[j]);
    case None =>
      assert forall j :: 0 <= j < |nodes| ==> !p(nodes[j]);
  }
}
