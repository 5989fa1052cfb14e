# LRU cache tests and formatted whitespace, modelled in Dafny

This project models two small pieces of Roslyn.

**The least-recently-used cache exercised by `ConcurrentLruCacheTests`.**
The tests show the behaviour the cache must have:
- It is built from an ordered array of pairs.
- The indexer's getter reads a key and makes it the most recently used.
- The indexer's setter overwrites a key, or inserts one and evicts the least recently used entry.
- `TestingEnumerable` lists the entries most recently used first.

The model has three layers:
- `LruSpec` states the abstract behaviour. It works on a sequence of (key, value) pairs, head (most recent) first, with a fixed capacity.
- `LruCache.ConcurrentLruCache` is a class over an arena of slots:
  - key, value, previous-link and next-link arrays;
  - a key index map;
  - a ghost list of occupied slots.

  `Get` and `Set` are proved against `LruSpec.Get` and `LruSpec.Set`, the constructor against `LruSpec.Build`, and `TestingEnumerable` against the abstract entries `Entries()` that the other three are stated on. `RecencyList` holds the lemmas about relinking the intrusive list.
- `ConcurrentLruCacheTests` models the test helper `OrderedTestDictionary`: a fixed array filled through an append cursor. It also models the collection initializer and the four `[Fact]` scenarios. Each scenario is a method whose postcondition is the assertion the test makes.

**`FormattedWhitespace` (module `Formatting`).**
This is the immutable whitespace trivia the formatter puts between two tokens:
- Its constructor clamps the line-break and space counts at 0.
- It renders the replacement string once. The string is either a newline per line break followed by the indentation string, or, when the second token does not start its line, that many spaces.
- It reports the string as a single text change.
- Its `With*` and `Format` members always fail.

`CreateString` keeps its loop. It is proved equal to the pure rendering `Rendered`, and the two cases are stated about `Rendered` by the lemmas `LineCase` and `SpaceCase`.

The cache implementation itself is not part of this model. The cache's contract comes from the tests and from standard LRU semantics: promotion on access, eviction of the least recently used entry, sequential execution.

## Model

| member | source | states |
|---|---|---|
| LruSpec.Get | src/Compilers/Core/CodeAnalysisTest/InternalUtilities/ConcurrentLruCacheTests.cs:92 | a read misses exactly when the key is absent, and then nothing changes; a hit keeps the number of entries, puts the key at the head and, with unique keys, returns the value stored for it |
| LruSpec.GetPermutes | src/Compilers/Core/CodeAnalysisTest/InternalUtilities/ConcurrentLruCacheTests.cs:92 | a read only reorders the entries: nothing is added, dropped or changed |
| LruSpec.GetKeepsOthersOrder | src/Compilers/Core/CodeAnalysisTest/InternalUtilities/ConcurrentLruCacheTests.cs:87-99 | a read leaves all other entries in the same order relative to each other |
| LruSpec.Set | src/Compilers/Core/CodeAnalysisTest/InternalUtilities/ConcurrentLruCacheTests.cs:66 | a write keeps the state within capacity and free of duplicate keys; the written pair becomes the head; an overwrite keeps the number of entries; an insert with room adds one entry in front of the old ones; an insert into a full cache drops the old tail |
| LruSpec.SetOverwrites | src/Compilers/Core/CodeAnalysisTest/InternalUtilities/ConcurrentLruCacheTests.cs:61-72 | writing a present key replaces that entry's value, moves it to the head, and evicts nothing |
| LruSpec.SetKeepsOthersOrder | src/Compilers/Core/CodeAnalysisTest/InternalUtilities/ConcurrentLruCacheTests.cs:61-72 | overwriting a key leaves all other entries in the same order relative to each other |
| LruSpec.SetInserts | src/Compilers/Core/CodeAnalysisTest/InternalUtilities/ConcurrentLruCacheTests.cs:52-53 | writing a new key into a cache with room puts the pair in front of all entries and evicts nothing |
| LruSpec.SetEvicts | src/Compilers/Core/CodeAnalysisTest/InternalUtilities/ConcurrentLruCacheTests.cs:74-85 | writing a new key into a full cache evicts the tail and puts the new pair in front of the others |
| LruSpec.EvictedIsWhatLeaves | src/Compilers/Core/CodeAnalysisTest/InternalUtilities/ConcurrentLruCacheTests.cs:79 | for every write, an entry with another key is gone afterwards if and only if it is the entry the write reports as evicted |
| LruSpec.EvictsExactlyTail | src/Compilers/Core/CodeAnalysisTest/InternalUtilities/ConcurrentLruCacheTests.cs:74-85 | an eviction removes exactly the old tail: every other entry stays and the new pair is the only newcomer |
| LruSpec.Build | src/Compilers/Core/CodeAnalysisTest/InternalUtilities/ConcurrentLruCacheTests.cs:38-41 | loading pairs by successive writes never exceeds the capacity, leaves no duplicate keys, and makes the last pair the head |
| LruSpec.BuildReverses | src/Compilers/Core/CodeAnalysisTest/InternalUtilities/ConcurrentLruCacheTests.cs:49-59 | loading distinct keys that fit lists them in reverse order, the last pair given first |
| LruCache.ConcurrentLruCache.constructor | src/Compilers/Core/CodeAnalysisTest/InternalUtilities/ConcurrentLruCacheTests.cs:40 | the capacity is the array's length, and the entries are those of writing the pairs in order |
| LruCache.ConcurrentLruCache.EntriesFit | src/Compilers/Core/CodeAnalysisTest/InternalUtilities/ConcurrentLruCacheTests.cs:79-84 | in every valid cache state the entries stay within the capacity and have unique keys, and the key index holds exactly the cached keys |
| LruCache.ConcurrentLruCache.Get | src/Compilers/Core/CodeAnalysisTest/InternalUtilities/ConcurrentLruCacheTests.cs:92 | the indexer's getter returns what the abstract read returns and leaves the cache in the abstract read's new state |
| LruCache.ConcurrentLruCache.Set | src/Compilers/Core/CodeAnalysisTest/InternalUtilities/ConcurrentLruCacheTests.cs:93 | the indexer's setter leaves the cache in the abstract write's new state and returns the entry the abstract write evicts |
| LruCache.ConcurrentLruCache.Recycle | src/Compilers/Core/CodeAnalysisTest/InternalUtilities/ConcurrentLruCacheTests.cs:79 | in a full cache the tail's entry is returned, and its slot holds the new pair at the head |
| LruCache.ConcurrentLruCache.TestingEnumerable | src/Compilers/Core/CodeAnalysisTest/InternalUtilities/ConcurrentLruCacheTests.cs:58 | walking the list from the head yields exactly the entries, most recently used first |
| ConcurrentLruCacheTests.OrderedTestDictionary.constructor | src/Compilers/Core/CodeAnalysisTest/InternalUtilities/ConcurrentLruCacheTests.cs:21-26 | a new array of the given capacity, with the cursor at 0 |
| ConcurrentLruCacheTests.OrderedTestDictionary.Add | src/Compilers/Core/CodeAnalysisTest/InternalUtilities/ConcurrentLruCacheTests.cs:43-46 | the cursor always advances by one; the write succeeds exactly when the old cursor is within the array, and then stores the pair at that cursor; otherwise the array is unchanged |
| ConcurrentLruCacheTests.OrderedTestDictionary.MakeCache | src/Compilers/Core/CodeAnalysisTest/InternalUtilities/ConcurrentLruCacheTests.cs:38-41 | the cache is new, its capacity is the array's length, and its entries are the whole array loaded in order |
| ConcurrentLruCacheTests.OrderedTestDictionary.Items | src/Compilers/Core/CodeAnalysisTest/InternalUtilities/ConcurrentLruCacheTests.cs:28-36 | the enumeration is the whole array, and its first entries are the added pairs in the order they were added, not sorted |
| ConcurrentLruCacheTests.Initialized | src/Compilers/Core/CodeAnalysisTest/InternalUtilities/ConcurrentLruCacheTests.cs:52-53 | a collection initializer succeeds exactly when the pairs fit; it stops at the first failing Add, just past the last slot; on success every pair is added and the enumeration starts with the pairs in the order given |
| ConcurrentLruCacheTests.Expected | src/Compilers/Core/CodeAnalysisTest/InternalUtilities/ConcurrentLruCacheTests.cs:28-31 | enumerating an initialized three-slot dictionary yields the three pairs in insertion order |
| ConcurrentLruCacheTests.LoadedCache | src/Compilers/Core/CodeAnalysisTest/InternalUtilities/ConcurrentLruCacheTests.cs:52-53 | the cache built from (1,1), (2,2), (3,3) has capacity 3 and holds (3,3), (2,2), (1,1) |
| ConcurrentLruCacheTests.LoadedInReverse | src/Compilers/Core/CodeAnalysisTest/InternalUtilities/ConcurrentLruCacheTests.cs:52-56 | loading (1,1), (2,2), (3,3) into three slots gives (3,3), (2,2), (1,1) |
| ConcurrentLruCacheTests.OverwriteHead | src/Compilers/Core/CodeAnalysisTest/InternalUtilities/ConcurrentLruCacheTests.cs:66-69 | writing 3 := 0 gives (3,0), (2,2), (1,1) and evicts nothing |
| ConcurrentLruCacheTests.WriteEvictsOne | src/Compilers/Core/CodeAnalysisTest/InternalUtilities/ConcurrentLruCacheTests.cs:79-82 | writing 4 := 4 gives (4,4), (3,3), (2,2) and evicts (1,1) |
| ConcurrentLruCacheTests.ReadPromotesOne | src/Compilers/Core/CodeAnalysisTest/InternalUtilities/ConcurrentLruCacheTests.cs:92 | reading key 1 returns 1 and gives (1,1), (3,3), (2,2) |
| ConcurrentLruCacheTests.WriteAfterReadEvictsTwo | src/Compilers/Core/CodeAnalysisTest/InternalUtilities/ConcurrentLruCacheTests.cs:93-96 | after that read, writing 4 := 4 gives (4,4), (1,1), (3,3) and evicts (2,2) |
| ConcurrentLruCacheTests.CacheHoldsCapacity | src/Compilers/Core/CodeAnalysisTest/InternalUtilities/ConcurrentLruCacheTests.cs:49-59 | the cache's enumeration equals the expected dictionary's: (3,3), (2,2), (1,1) |
| ConcurrentLruCacheTests.CacheOverwritesKey | src/Compilers/Core/CodeAnalysisTest/InternalUtilities/ConcurrentLruCacheTests.cs:61-72 | after 3 := 0 the enumeration equals (3,0), (2,2), (1,1), and nothing is evicted |
| ConcurrentLruCacheTests.CacheEvictsNoRead | src/Compilers/Core/CodeAnalysisTest/InternalUtilities/ConcurrentLruCacheTests.cs:74-85 | after 4 := 4 the enumeration equals (4,4), (3,3), (2,2), and (1,1) is evicted |
| ConcurrentLruCacheTests.CacheEvictsWithRead | src/Compilers/Core/CodeAnalysisTest/InternalUtilities/ConcurrentLruCacheTests.cs:87-99 | reading key 1 yields 1; after 4 := 4 the enumeration equals (4,4), (1,1), (3,3), and (2,2) is evicted |
| Formatting.Max0 | src/Workspaces/Core/Portable/Formatting/Engine/AbstractTriviaDataFactory.FormattedWhitespace.cs:22-23 | the clamped count is non-negative, at least the argument, and either 0 or the argument |
| Formatting.Rendered | src/Workspaces/Core/Portable/Formatting/Engine/AbstractTriviaDataFactory.FormattedWhitespace.cs:28-44 | the rendered length is the newlines' total length plus the indentation's in the line case, and the number of spaces in the space case |
| Formatting.LineCase | src/Workspaces/Core/Portable/Formatting/Engine/AbstractTriviaDataFactory.FormattedWhitespace.cs:30-40 | in the line case the string is, block by block, one newline per line break, followed by exactly the indentation string for the spaces under the use-tabs and tab-size options |
| Formatting.SpaceCase | src/Workspaces/Core/Portable/Formatting/Engine/AbstractTriviaDataFactory.FormattedWhitespace.cs:42-43 | in the space case the string is exactly Spaces copies of ' ', whatever the line breaks, options and platform are |
| Formatting.FormattedWhitespace.constructor | src/Workspaces/Core/Portable/Formatting/Engine/AbstractTriviaDataFactory.FormattedWhitespace.cs:19-26 | the counts are the arguments clamped at 0, and the string is rendered from those counts once, when the trivia is constructed |
| Formatting.FormattedWhitespace.CreateString | src/Workspaces/Core/Portable/Formatting/Engine/AbstractTriviaDataFactory.FormattedWhitespace.cs:28-44 | the string the builder loop assembles is the rendering of the counts |
| Formatting.FormattedWhitespace.TreatAsElastic | src/Workspaces/Core/Portable/Formatting/Engine/AbstractTriviaDataFactory.FormattedWhitespace.cs:46-52 | formatted whitespace is never elastic |
| Formatting.FormattedWhitespace.IsWhitespaceOnlyTrivia | src/Workspaces/Core/Portable/Formatting/Engine/AbstractTriviaDataFactory.FormattedWhitespace.cs:54-60 | formatted whitespace is always whitespace-only |
| Formatting.FormattedWhitespace.ContainsChanges | src/Workspaces/Core/Portable/Formatting/Engine/AbstractTriviaDataFactory.FormattedWhitespace.cs:62-68 | formatted whitespace always contains changes |
| Formatting.FormattedWhitespace.GetTextChanges | src/Workspaces/Core/Portable/Formatting/Engine/AbstractTriviaDataFactory.FormattedWhitespace.cs:70-73 | exactly one change, which replaces the given span with the rendering of the trivia's counts |
| Formatting.FormattedWhitespace.WithSpace | src/Workspaces/Core/Portable/Formatting/Engine/AbstractTriviaDataFactory.FormattedWhitespace.cs:75-78 | always fails as not implemented |
| Formatting.FormattedWhitespace.WithLine | src/Workspaces/Core/Portable/Formatting/Engine/AbstractTriviaDataFactory.FormattedWhitespace.cs:80-83 | always fails as not implemented |
| Formatting.FormattedWhitespace.WithIndentation | src/Workspaces/Core/Portable/Formatting/Engine/AbstractTriviaDataFactory.FormattedWhitespace.cs:85-88 | always fails as not implemented |
| Formatting.FormattedWhitespace.Format | src/Workspaces/Core/Portable/Formatting/Engine/AbstractTriviaDataFactory.FormattedWhitespace.cs:90-94 | always fails as not implemented |

## Left out

- Concurrency: locking and linearizability of the cache under concurrent callers are not modelled. The cache is a single-threaded object.
- The cache implementation is not part of this model. Its slot arena and recency list are a design that meets the contract the tests fix, not a transcription.
- LruSpec.Set: that overwriting a key promotes it to the head is an assumption. The tests only overwrite the key that is already the head, where promotion and in-place update agree. The property `LruSpec.SetOverwrites` states it for every position.
- LruSpec.Set: a cache of capacity 0 stores nothing on a write of a new key. The tests never build one.
- LruCache.ConcurrentLruCache.Get: a miss returns `None` where the indexer throws `KeyNotFoundException`.
- LruCache.ConcurrentLruCache.constructor: the capacity is always the number of pairs given, as `MakeCache` passes the whole array. Duplicate keys in that array are loaded as successive overwrites.
- The cache's non-promoting presence check is not modelled; the tests do not use it.
- ConcurrentLruCacheTests.OrderedTestDictionary.Add: a write past the end returns `false` where the array store throws `IndexOutOfRangeException`. As in the source, the cursor has already advanced by then.
- ConcurrentLruCacheTests.Initialized: where the initializer's failing `Add` throws and no dictionary results, the model returns `ok == false` together with the partly filled dictionary.
- ConcurrentLruCacheTests.OrderedTestDictionary.constructor: the capacity is a `nat`. The negative capacity, on which the array allocation throws, is not modelled.
- The enumeration of `OrderedTestDictionary` is the whole backing array, unfilled default slots included. The non-generic `GetEnumerator` (lines 33-36) is the same enumeration.
- xUnit's `Assert.True`, `Assert.Equal` and `SequenceEqual` are not modelled. Each scenario returns the actual and expected sequences, and its postcondition states their equality.
- Formatting: `StringBuilderPool` allocation and release carry no behaviour and are left out.
- Formatting: the `TriviaData` base class is not part of this model. `SecondTokenIsFirstTokenOnLine` is a constructor parameter.
- Formatting: `CreateIndentationString` and `OptionSet.GetOption` are uninterpreted function values. The platform newline that `AppendLine` writes is an arbitrary string.
- Formatting.FormattedWhitespace.WithSpace: the `FormattingContext`, `ChainedFormattingRules`, `CancellationToken` and result-applier parameters of the `With*` and `Format` members are dropped. The thrown `NotImplementedException` becomes a `Failure` result.
- Formatting.FormattedWhitespace.constructor: counts are unbounded integers rather than 32-bit `int`. `Math.Max(0, x)` cannot overflow, so nothing depends on the width.
- `TextSpan` and `TextChange` are plain records, without the library types' validation.
