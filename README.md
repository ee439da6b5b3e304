# Mono introspection helper

A model of LiveSplit's `Mono` helper. It reads the private memory of a
running Mono process to do three things:

- hash a name with glib's `g_str_hash`, as ported from Mono's eglib;
- find a loaded image (`MonoImage*`) by name in Mono's loaded-images hash
  table;
- find a class by its TypeDef metadata token in an image's class cache.

The helper only ever reads memory. The model treats the target's memory as
a snapshot that the caller passes in (`RemoteMemory.Memory`). That snapshot
has three parts:

- the pointer stored at each address;
- the 32-bit word stored at each address;
- the text that a bounded C-string read finds at each address.

A read of an address outside the snapshot fails. The helper's read
functions then give their default: a null pointer, 0, or "".

Files:

- `words.dfy` (`MachineWords`): the .NET integer widths. C# `uint` and `int`
  casts are unchecked. `IntPtr + int` sign-extends the offset and wraps at
  2^64, because the process is 64-bit. Every value is a mathematical
  integer, and every operation that can leave its range reduces the result
  explicitly.
- `memory.dfy` (`RemoteMemory`): the memory snapshot and its reads.
  `IsChain` says that a list of nodes is the bucket chain from a head
  pointer, followed through a link field until a null pointer. `FindFirst`
  finds the first node of a chain that satisfies a predicate.
- `mono.dfy` (`Mono`): `g_str_hash` as a loop, proved equal to the fold
  `StrHash`. `GetImage` and `GetClass` are methods whose loops walk a
  chain. Each is proved equal to a specification function (`ImageLookup`,
  `ClassLookup`), and lemmas state what those functions mean.
- `scenarios.dfy` (`MonoScenarios`): pinned hash values, and hand-built
  tables on which the two lookups find, miss and refuse.

Each lookup returns an `Outcome`. `Returned(found, value)` is the method's
`bool` result together with its `out` pointer. `Threw(e)` is an exception
that escapes to the caller.

The structure offsets are fields of a `Layout`:

- the size at `+0x18`;
- the entry's image at `+0x08` and its next entry at `+0x10`;
- `CLASS_CACHE_OFFSET`, and the cache's size at `+0x18` and table at `+0x20`;
- the class's token at `+0x58` and its next class at `+0x108`;
- the name bound `MAX_STRING_SIZE`.

`SourceLayout` holds the values the source uses. No general lemma depends
on them; the scenarios use them. A bucket slot is 8 bytes wide
(`SlotSize`), as in the source.

Points where the code's behaviour is easy to miss:

- A bucket count of 0 makes both lookups throw `DivideByZeroException`
  (`% (uint)size`, Mono.cs:104 and Mono.cs:139). A failed read of the count
  also gives 0. The model returns `Threw(DivideByZero)` there.
- The code hashes the key with `Substring(1)` (Mono.cs:51). So
  `GetImage("")` throws `ArgumentOutOfRangeException`, unless the
  loaded-images table is null. The model returns `Threw(ArgumentOutOfRange)`
  there.
- `ClassScenario` uses a 1-bucket table so that both classes share one
  chain. In a 2-bucket table 0x02000001 and 0x02000002 fall into different
  buckets, because 0x02000001 % 2 is 1 and 0x02000002 % 2 is 0.
- `GetImage` bounds names with the literal `2048`, not with
  `MAX_STRING_SIZE`. The two have the same value. The model uses the
  `Layout` bound.

## Model

| member | source | states |
|---|---|---|
| MachineWords.UIntRoundTrip | LiveSplit/LiveSplit.Core/ComponentUtil/Mono.cs:104 | `(uint)` of a word read as `int` gives back the word |
| MachineWords.IntRoundTrip | LiveSplit/LiveSplit.Core/ComponentUtil/Mono.cs:139 | `(int)` of `(uint)x` gives back `x` |
| MachineWords.ToInt32Congruent | LiveSplit/LiveSplit.Core/ComponentUtil/Mono.cs:139 | the `(int)` cast keeps the value modulo 2^32, and keeps the number when it is below 2^31 |
| MachineWords.WrapInt32Exact | LiveSplit/LiveSplit.Core/ComponentUtil/Mono.cs:140 | unchecked `int` arithmetic such as `8 * bucket` is exact when the result fits, and otherwise off by a multiple of 2^32 |
| RemoteMemory.ReadInt32 | LiveSplit/LiveSplit.Core/ComponentUtil/Mono.cs:83 | `ReadValue<int>` reads the same 32 bits as `ReadValue<uint>`, seen as signed |
| RemoteMemory.ReadCString | LiveSplit/LiveSplit.Core/ComponentUtil/Mono.cs:113 | the string read is a prefix of the stored one and at most the bound long; it is the whole stored string when that fits; a failed read gives "" |
| RemoteMemory.Chain | LiveSplit/LiveSplit.Core/ComponentUtil/Mono.cs:109 | a chain that ends has a node list that follows it from the head to null, and every node list of that chain is this one |
| RemoteMemory.ChainIsLinkedList | LiveSplit/LiveSplit.Core/ComponentUtil/Mono.cs:109 | the recursive chain definition agrees, in both directions, with the node-by-node one: all nodes non-null, first is the head, each links to the next, the last links to null |
| RemoteMemory.ChainUnique | LiveSplit/LiveSplit.Core/ComponentUtil/Mono.cs:140-142 | memory fixes the chain: two node lists for one head are equal |
| RemoteMemory.ChainSuffix | LiveSplit/LiveSplit.Core/ComponentUtil/Mono.cs:142 | each suffix of a chain is the chain from the node it starts at |
| RemoteMemory.ChainDistinct | LiveSplit/LiveSplit.Core/ComponentUtil/Mono.cs:109 | a chain that ends never visits a node twice |
| RemoteMemory.FindFirst | LiveSplit/LiveSplit.Core/ComponentUtil/Mono.cs:115-118 | gives the position of a node that satisfies the test with no earlier such node, or none exactly when no node satisfies it |
| Mono.GStrHash | LiveSplit/LiveSplit.Core/ComponentUtil/Mono.cs:47-62 | the loop's result is the fold of the hash step over every character after the first, followed by the null fold |
| Mono.HashStepArith | LiveSplit/LiveSplit.Core/ComponentUtil/Mono.cs:53 | `(hash << 5) - (hash + p)` on `uint` is `31 * hash - p` modulo 2^32 |
| Mono.HashFoldIsPoly | LiveSplit/LiveSplit.Core/ComponentUtil/Mono.cs:51-54 | the 32-bit accumulator is the unreduced polynomial (times 31, minus the character, per step) modulo 2^32 |
| Mono.StrHashIsPoly | LiveSplit/LiveSplit.Core/ComponentUtil/Mono.cs:49-61 | g_str_hash is 31 times the polynomial of the characters after the first, modulo 2^32 |
| Mono.StrHashIgnoresFirst | LiveSplit/LiveSplit.Core/ComponentUtil/Mono.cs:51 | strings that differ only in their first character hash equally |
| Mono.StrHashSingle | LiveSplit/LiveSplit.Core/ComponentUtil/Mono.cs:49-61 | every one-character string hashes to 0 |
| Mono.LoadedImagesHashTableSize | LiveSplit/LiveSplit.Core/ComponentUtil/Mono.cs:81-84 | the size is the word at `loaded_images_hash + 0x18`, read as a signed `int` |
| Mono.GetImage | LiveSplit/LiveSplit.Core/ComponentUtil/Mono.cs:92-124 | the method's outcome is `ImageLookup`: null table, empty key, zero size, then a chain search from bucket `g_str_hash(key) % (uint)size` |
| Mono.ImageWithoutTable | LiveSplit/LiveSplit.Core/ComponentUtil/Mono.cs:97-101 | with a null loaded-images table the result is false with a null pointer, the same for every memory and every table |
| Mono.ImageThrows | LiveSplit/LiveSplit.Core/ComponentUtil/Mono.cs:103-104 | GetImage throws exactly when the table is there and the key is empty or the bucket count is 0; an empty key throws ArgumentOutOfRange |
| Mono.ImageBucketInRange | LiveSplit/LiveSplit.Core/ComponentUtil/Mono.cs:103-104 | when the size is positive, the bucket index is below it |
| Mono.ImageFound | LiveSplit/LiveSplit.Core/ComponentUtil/Mono.cs:109-123 | for the chain of the key's bucket: found exactly when some entry's name equals the key; then the value is the `+0x08` pointer of the first such entry; otherwise false with a null pointer |
| Mono.ImageKeyTooLong | LiveSplit/LiveSplit.Core/ComponentUtil/Mono.cs:113-115 | a key longer than the name bound is never found |
| Mono.TypeDefTokenRange | LiveSplit/LiveSplit.Core/ComponentUtil/Mono.cs:129 | `(token & 0xff000000) == 0x02000000` holds exactly for tokens 0x02000000 to 0x02ffffff |
| Mono.GetClass | LiveSplit/LiveSplit.Core/ComponentUtil/Mono.cs:126-153 | the method's outcome is `ClassLookup`: token kind, zero size, then a chain search from bucket `token % (uint)size` |
| Mono.ClassRejectsKind | LiveSplit/LiveSplit.Core/ComponentUtil/Mono.cs:128-133 | a non-TypeDef token gives false with a null class, the same for every memory, so nothing is read |
| Mono.ClassThrows | LiveSplit/LiveSplit.Core/ComponentUtil/Mono.cs:135-139 | GetClass throws exactly when a TypeDef token meets a bucket count of 0 |
| Mono.ClassBucketInRange | LiveSplit/LiveSplit.Core/ComponentUtil/Mono.cs:135-139 | when the size is positive, the bucket index is at least 0 and below the size |
| Mono.ClassFound | LiveSplit/LiveSplit.Core/ComponentUtil/Mono.cs:140-152 | for the chain of the token's bucket: found exactly when some class's `+0x58` key equals the token; then the result is that first class node itself, which is non-null; otherwise false with a null pointer |
| MonoScenarios.StrHashMscorlib | LiveSplit/LiveSplit.Core/ComponentUtil/Mono.cs:47-62 | g_str_hash("mscorlib") is 0x1cecdb32 |
| MonoScenarios.StrHashSystem | LiveSplit/LiveSplit.Core/ComponentUtil/Mono.cs:47-62 | g_str_hash("System") is 0x2afaca82 |
| MonoScenarios.StrHashAssemblyCSharp | LiveSplit/LiveSplit.Core/ComponentUtil/Mono.cs:47-62 | g_str_hash("Assembly-CSharp") is 0xfa381aed |
| MonoScenarios.StrHashUnityEngine | LiveSplit/LiveSplit.Core/ComponentUtil/Mono.cs:47-62 | g_str_hash("UnityEngine") is 0x878b63a2 |
| MonoScenarios.ImageScenario | LiveSplit/LiveSplit.Core/ComponentUtil/Mono.cs:92-124 | in a 4-bucket table chaining "A" to "B", "A" gives 0x1000, "B" gives 0x2000 and "C" is not found |
| MonoScenarios.ClassScenario | LiveSplit/LiveSplit.Core/ComponentUtil/Mono.cs:126-153 | in a 1-bucket cache, both chained tokens are found, an absent TypeDef token is not, and a MethodDef token is refused |

## Left out

- The constructor (Mono.cs:68-79) is left out. It finds the `mono` module
  of the process and reads `loaded_images_hash` from the module base plus
  `LOADED_IMAGES_HASH_OFFSET`. That is operating-system process plumbing.
  The resulting address is the `loadedImagesHash` field of `Helper`.
- `DeepPointer.DerefOffsets` (Mono.cs:94) is a helper that is not part of
  this model. The bucket array address it produces is the `table` argument
  of `GetImage`.
- `Process.ReadPointer`, `ReadValue` and `ReadNullTerminatedString` are
  cross-process I/O. They are lookups in the `Memory` snapshot here. A
  failed string read is taken to give "".
- `ReadCString` is one concrete reader. It returns the whole stored string
  when it fits in the bound, and otherwise cuts it at exactly the bound.
  `ImageScenario` and the whole-string ensures rely on that. The real
  `ReadNullTerminatedString` may cut at a different length, for example 2047
  characters before a null within 2048 bytes. Its exact truncation and
  ASCII decoding belong to a helper that is not part of this model.
- Memory that changes while a lookup runs is not modelled. Each call reads
  one snapshot.
- Chains that never reach a null pointer are excluded. `GetImage` and
  `GetClass` require the one chain they walk to end (`ImageChainEnds`,
  `ClassChainEnds`). On a cyclic chain with no match, the source loops
  forever. The requirement also excludes cyclic chains where a match comes
  before the cycle closes. On those the source returns normally; the model
  says nothing about them.
- A `null` key is not modelled, because Dafny strings cannot be null.
- `Debug.WriteLine` (Mono.cs:136) is logging only.
- The domain/vtable resolver and the field address resolver do not exist in
  `Mono.cs`, so they are not modelled.
