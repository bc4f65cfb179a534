# Wavelet tree

This project models the wavelet tree of `wavelet.py` and proves it correct.

- **Data.** A `WaveletTree` owns a root `WaveletNode`. Each node is built from a string and holds:
  - its sorted alphabet size;
  - a dictionary giving every symbol a bit: the lower half of the sorted alphabet gets 0, the rest 1;
  - a bit vector with one bit per character.
- **Children.** When the alphabet has more than two symbols, a node has two children. One is built from the characters with bit 0 and the other from the characters with bit 1, each keeping its order.
- **Query.** `rank(index, c)` counts the bit of `c` in the first `index + 1` entries of the bit vector. A leaf returns that count; an internal node passes `count - 1` to the child of that bit.

The model has two modules:

- `WaveletSpec` (`wavelet_spec.dfy`) states what the node's parts are as functions of the string it is built from:
  - the alphabet (`IsAlphabetOf`);
  - the dictionary (`HalvesDictionary` with `MiddleIndex`);
  - the bit vector (`Encodes`);
  - the child strings (`Filter`);
  - the meaning of a query (`Occ` of `Prefix`).

  It also proves the facts rank rests on.
- `Wavelet` (`wavelet.dfy`) is the imperative program:
  - the node is a class with the source's fields (`charDictionary`, `bitVector`, `alphabetLength`, `left`, `right`);
  - `create_tree`, `dictionary_init` and `rank` are methods, and their loops carry invariants tying them to the spec functions;
  - ghost fields record the string a node was built from (`Scope`), its sorted alphabet (`Alphabet`) and its footprint (`Repr`);
  - `Valid()` together with `Content()` is the node invariant that construction establishes and rank relies on.

The main theorem is the postcondition of `Wavelet.WaveletTree.Rank`:

- for a character of the data, the result is the number of its occurrences in `data[0 .. position]`, clamped to the end of the data;
- for any other character, the result is `KeyError`.

## Model

| member | source | states |
|---|---|---|
| Wavelet.DistinctSymbols | wavelet.py:87-90 | the alphabet-collecting loop yields a list without repeats whose symbols are exactly those of the input |
| Wavelet.SortAlphabet | wavelet.py:92-93 | sorting the collected alphabet gives a strictly ascending permutation of it |
| Wavelet.InsertSorted | wavelet.py:93 | one insertion step of the sort keeps the list strictly ascending and adds exactly the new symbol |
| Wavelet.CollectAlphabet | wavelet.py:83-95 | the alphabet create_tree builds is the sorted list of the distinct characters of its input, without repeats |
| Wavelet.WaveletNode.constructor | wavelet.py:36-54 | a new node has an empty dictionary and bit vector, no children and alphabet length 0, and is a valid node for the empty string |
| Wavelet.WaveletNode.DictionaryInit | wavelet.py:56-75 | every alphabet symbol gets a bit, and exactly the first MiddleIndex of the sorted symbols get bit 0 |
| Wavelet.WaveletNode.CreateTree | wavelet.py:77-123 | after create_tree the node is valid for its input: alphabet, alphabet length, dictionary, bit vector and children are as described, and every object of the subtree is new |
| Wavelet.WaveletNode.EncodeAndSplit | wavelet.py:99-108 | the loop of an internal node writes the bit of each character in order and collects exactly the order-preserving bit-0 and bit-1 subsequences as the child strings |
| Wavelet.WaveletNode.Encode | wavelet.py:119-123 | the loop of a leaf writes exactly the bit of each character, in order |
| Wavelet.WaveletNode.CreateChildren | wavelet.py:110-117 | the two children are new valid nodes built from the two child strings, with disjoint footprints |
| Wavelet.WaveletNode.Build | wavelet.py:111-117 | a node made by the constructor and filled in by create_tree is valid for its input string |
| Wavelet.WaveletNode.LinkValid | wavelet.py:99-117 | a node whose dictionary, bit vector and alphabet are those of its input and whose children are valid nodes of the two child strings is a valid node; this includes each child's alphabet being its half of the parent's |
| Wavelet.WaveletNode.Rank | wavelet.py:125-143 | for a character of the node's input, rank returns its number of occurrences in the input up to `index`, clamped to the end; an index of -1 yields 0; for any other character rank returns KeyError, and both directions hold |
| Wavelet.CountBit | wavelet.py:131-136 | the counting loop returns the number of entries equal to the bit among the first `end` entries of the bit vector |
| Wavelet.WaveletNode.LevelsBound | wavelet.py:99-123 | a node is a leaf exactly when its alphabet has at most two symbols, and a subtree with L levels over n >= 2 symbols has 2^(L-1) < n, so its depth is logarithmic in the alphabet size |
| Wavelet.WaveletTree.constructor | wavelet.py:13-23 | the tree stores the data, and its root is a valid node built from the whole data |
| Wavelet.WaveletTree.Rank | wavelet.py:25-30 | the tree's rank is the occurrence count of the character in the data prefix, or KeyError exactly when the character is absent from the data |
| WaveletSpec.MiddleIndex | wavelet.py:62-69 | above two symbols, the split index leaves both halves non-empty, and the lower half is the rounded-up half; otherwise it is 1 |
| WaveletSpec.EncodesAt | wavelet.py:101-103 | the bit vector has the input's length, and its entry i is the dictionary's bit for character i, in both directions |
| WaveletSpec.EncodesPrefix | wavelet.py:134 | the first k bits are the bit vector of the first k characters |
| WaveletSpec.EncodesSnoc | wavelet.py:102-103 | appending a character's bit extends the bit vector by that character |
| WaveletSpec.FilterAppend | wavelet.py:101-108 | splitting a concatenation splits each part and concatenates the results |
| WaveletSpec.FilterCount | wavelet.py:101-108 | the number of b-bits in the bit vector is the length of the child string of bit b |
| WaveletSpec.FilterOcc | wavelet.py:101-108 | each character goes, with all its occurrences, to the child string of its bit and to no other |
| WaveletSpec.FilterSymbols | wavelet.py:101-108 | the symbols of the child string of bit b are exactly the input's symbols whose bit is b |
| WaveletSpec.FilterPartition | wavelet.py:101-108 | the two child strings' lengths add up to the input's length, and together they hold each character as often as the input |
| WaveletSpec.SplitRoundTrip | wavelet.py:101-108 | the bit vector and the two child strings, interleaved, give the input back |
| WaveletSpec.SplitRoundTripStep | wavelet.py:101-108 | the round trip extends by one character: the last character is put back last |
| WaveletSpec.RankStep | wavelet.py:131-140 | the count of c's bit in the first k bits is a length within the child string, and that much of the child string holds c as often as the first k characters do |
| WaveletSpec.RankInternal | wavelet.py:139-140 | at an internal node, c occurs in the chosen child, and the child's query with `count - 1` counts what the node's query counts |
| WaveletSpec.RankLeaf | wavelet.py:141-143 | at a leaf, the count of c's bit in the first k bits is the number of c in the first k characters |
| WaveletSpec.LeafCount | wavelet.py:141-143 | when no other character shares c's bit, counting the bit counts c |
| WaveletSpec.LeafDictionaryInjective | wavelet.py:62-75 | at most two symbols get different bits |
| WaveletSpec.SortedUnique | wavelet.py:92-93 | a set of characters has exactly one strictly ascending listing |
| WaveletSpec.SortedFirst | wavelet.py:92-93 | the first entry of a sorted alphabet is its smallest symbol |
| WaveletSpec.SortedTail | wavelet.py:92-93 | dropping the first entry of a sorted alphabet keeps it sorted and removes exactly that symbol |
| WaveletSpec.SortedSlice | wavelet.py:71-75 | each slice of a sorted alphabet, such as the two halves, is sorted |
| WaveletSpec.SortedDistinct | wavelet.py:92-93 | a strictly sorted list has no repeats |
| WaveletSpec.InsertAscending | wavelet.py:93 | putting a symbol after the smaller ones and before the larger ones keeps the list strictly ascending |
| WaveletSpec.DistinctSnoc | wavelet.py:89-90 | appending a symbol not yet collected keeps the list free of repeats |
| WaveletSpec.HalfSymbols | wavelet.py:62-75 | above two symbols, bit 0 goes exactly to the lower half of the sorted alphabet and bit 1 to the upper half, and each half holds a symbol of the input |
| WaveletSpec.SplitAlphabet | wavelet.py:99-117 | above two symbols, the child strings' symbols are the two halves of the alphabet, both sorted, and each has fewer symbols than the parent, so the recursion terminates |
| WaveletSpec.ChildAlphabets | wavelet.py:83-95 | the alphabet create_tree computes for each child string is exactly the matching half of the parent's alphabet |
| WaveletSpec.ChildFewerSymbols | wavelet.py:99-117 | a child string misses at least one symbol of the parent, namely one of the other bit |
| WaveletSpec.ChildHeight | wavelet.py:67 | a child of at most half the symbols, rounded up, whose subtree meets the height bound keeps the parent within it |
| WaveletSpec.PrefixStep | wavelet.py:125-136 | moving the query index one step adds one occurrence exactly when the new position holds c, so rank is non-decreasing; a query at or past the last index counts every occurrence |

## Left out

- The `Fasta` class (wavelet.py:145-180) is not part of this model: it does file reading and header/comment handling and has no tree logic.
- The `__main__` block (wavelet.py:183-220) is not part of this model: command-line arguments, the interactive loop, printing, timing and memory measurement are I/O.
  - Its catching of KeyError is modelled only as the `KeyError` result of rank.
- `bit_pointer` (wavelet.py:54, 112, 116) is not modelled. It maps bit 0 to `left` and bit 1 to `right`, so rank picks `left` or `right` directly.
- `alphabet.sort()` (wavelet.py:93) is Python's library sort. It is modelled by an insertion sort (`SortAlphabet`). On a list of distinct characters every correct sort gives the same result, and `SortedUnique` proves that.
- The `bit_value is 0` identity test (wavelet.py:105) is modelled as integer equality. It agrees with `==` for the small integers 0 and 1.
- Wavelet.WaveletNode.Rank: requires `index >= -1`. Python slicing with a stop below 0 (`[0 : index + 1]` with `index < -1`) counts from the end of the list; that case is not modelled. The recursion itself only passes indices of -1 or more.
- Wavelet.WaveletNode.CreateTree: requires a node fresh from the constructor (empty dictionary and bit vector, no children). The source only calls it on such nodes. Calling it twice on one node would append to the old bit vector and dictionary; that case is not modelled.
- Node construction and rank follow the code where other descriptions of the wavelet tree differ:
  - a position past the end is clamped by the slice rather than rejected;
  - a zero count recurses with index -1, which selects the empty prefix;
  - an empty input gives a leaf with an empty dictionary, so every rank on it is a KeyError.
- Characters are Dafny `char`s ordered by code point, like Python 2 byte strings compared by byte value. No encoding is modelled.
