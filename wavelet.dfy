/**
 * The wavelet tree of wavelet.py: a WaveletTree owning a root WaveletNode,
 * each node holding a character-to-bit dictionary and a bit vector for the
 * string it was built from, and, when that string has more than two distinct
 * characters, two children built from its 0-characters and its 1-characters.
 *
 * Nodes are objects whose fields create_tree fills in step by step, so they
 * are modelled as a class. Ghost fields record what the Python code only has
 * in local variables (the string a node was built from, its sorted alphabet)
 * and the set of objects a node's subtree is made of.
 */
module Wavelet {
  import opened WaveletSpec

  /** The outcome of a rank query: a count, or the KeyError the dictionary lookup raises. */
  datatype RankResult = Count(n: nat) | KeyError

  /**
   * The distinct characters of `s` in order of first appearance, as the
   * alphabet-collecting loop of create_tree finds them.
   */
  method DistinctSymbols(s: seq<char>) returns (alphabet: seq<char>)
    ensures Distinct(alphabet) && Symbols(alphabet) == Symbols(s)
  {
    alphabet := [];
    for i := 0 to |s|
      invariant Distinct(alphabet) && Symbols(alphabet) == Symbols(s[..i])
    {
      assert s[..i + 1] == s[..i] + [s[i]];
      if s[i] !in alphabet {
        assert Symbols(alphabet + [s[i]]) == Symbols(alphabet) + {s[i]};
        DistinctSnoc(alphabet, s[i]);
        alphabet := alphabet + [s[i]];
      }
    }
    assert s[..|s|] == s;
  }

  /**
   * The alphabet of `s` as create_tree builds it: its distinct characters,
   * collected in order of first appearance and then sorted.
   */
  method CollectAlphabet(s: seq<char>) returns (alphabet: seq<char>)
    ensures IsAlphabetOf(alphabet, s) && Distinct(alphabet)
  {
    var found := DistinctSymbols(s);
    alphabet := SortAlphabet(found);
    SortedDistinct(alphabet);
    assert Symbols(alphabet) == Symbols(found) by {
      assert forall x :: x in alphabet <==> x in multiset(alphabet);
      assert forall x :: x in found <==> x in multiset(found);
    }
  }

  /**
   * Sorting the alphabet in ascending character order. The list sort of the
   * source is a library routine; this is an insertion sort with the same
   * result on a list of distinct characters.
   */
  method SortAlphabet(alphabet: seq<char>) returns (sorted: seq<char>)
    requires Distinct(alphabet)
    ensures StrictlySorted(sorted) && multiset(sorted) == multiset(alphabet)
  {
    sorted := [];
    for i := 0 to |alphabet|
      invariant StrictlySorted(sorted) && multiset(sorted) == multiset(alphabet[..i])
    {
      var x := alphabet[i];
      assert x !in multiset(alphabet[..i]) by {
        forall k | 0 <= k < i
          ensures alphabet[..i][k] != x
        {
          assert Different(alphabet, k, i);
        }
      }
      assert alphabet[..i + 1] == alphabet[..i] + [x];
      sorted := InsertSorted(sorted, x);
    }
    assert alphabet[..|alphabet|] == alphabet;
  }

  /** Inserts a new character into a strictly sorted list at its place. */
  method InsertSorted(sorted: seq<char>, x: char) returns (r: seq<char>)
    requires StrictlySorted(sorted) && x !in sorted
    ensures StrictlySorted(r) && multiset(r) == multiset(sorted) + multiset{x}
  {
    var j := 0;
    while j < |sorted| && sorted[j] < x
      invariant 0 <= j <= |sorted|
      invariant forall k :: 0 <= k < j ==> sorted[k] < x
    {
      j := j + 1;
    }
    assert j < |sorted| ==> sorted[j] in sorted;
    InsertAscending(sorted, j, x);
    assert sorted == sorted[..j] + sorted[j..];
    r := sorted[..j] + [x] + sorted[j..];
  }

  class WaveletNode {
    var charDictionary: map<char, Bit>
    var bitVector: seq<Bit>
    var alphabetLength: nat
    var left: WaveletNode?
    var right: WaveletNode?

    /** The string this node was built from. */
    ghost var Scope: seq<char>
    /** The sorted distinct characters of Scope. */
    ghost var Alphabet: seq<char>
    /** The objects of this node's subtree. */
    ghost var Repr: set<object>

    /**
     * The node invariant: the node and its subtree own disjoint footprints,
     * the two children are both present or both absent, and Content holds.
     */
    ghost predicate Valid()
      reads this, Repr
      decreases Repr, 1
    {
      this in Repr &&
      (left == null <==> right == null) &&
      (left != null && right != null ==>
        left in Repr && left.Repr <= Repr && this !in left.Repr &&
        right in Repr && right.Repr <= Repr && this !in right.Repr &&
        left.Repr !! right.Repr) &&
      Content()
    }

    /**
     * What the node holds: the alphabet, dictionary and bit vector are those of
     * Scope, and the children exist exactly when the alphabet has more than two
     * symbols, in which case each is a valid node built from the order-preserving
     * subsequence of Scope of its bit, over its half of the alphabet. It is kept
     * apart from Valid, and recursive with it, so that a proof sees it only
     * where it states `Content()` itself.
     */
    ghost predicate Content()
      reads this, Repr
      decreases Repr, 0
    {
      IsAlphabetOf(Alphabet, Scope) &&
      alphabetLength == |Alphabet| &&
      HalvesDictionary(charDictionary, Alphabet) &&
      Encodes(bitVector, Scope, charDictionary) &&
      (left == null <==> alphabetLength <= 2) &&
      (left != null && right != null && this in Repr &&
       left in Repr && left.Repr <= Repr && this !in left.Repr &&
       right in Repr && right.Repr <= Repr && this !in right.Repr ==>
        left.Scope == Filter(Scope, charDictionary, 0) &&
        right.Scope == Filter(Scope, charDictionary, 1) &&
        left.Alphabet == Alphabet[..MiddleIndex(alphabetLength)] &&
        right.Alphabet == Alphabet[MiddleIndex(alphabetLength)..] &&
        left.Valid() && right.Valid())
    }

    /** A node as WaveletNode() leaves it, before create_tree fills it in. */
    ghost predicate Unbuilt()
      reads this
    {
      charDictionary == map[] && bitVector == [] && left == null && right == null
    }

    constructor ()
      ensures Unbuilt() && alphabetLength == 0
      ensures Valid() && Scope == [] && Repr == {this}
    {
      charDictionary := map[];
      bitVector := [];
      alphabetLength := 0;
      left := null;
      right := null;
      Scope := [];
      Alphabet := [];
      Repr := {this};
    }

    /**
     * dictionary_init: the first MiddleIndex(alphabetLength) symbols of the
     * alphabet get bit 0, the rest bit 1.
     */
    method DictionaryInit(alphabet: seq<char>)
      requires Distinct(alphabet) && alphabetLength == |alphabet| && charDictionary == map[]
      modifies this`charDictionary
      ensures HalvesDictionary(charDictionary, alphabet)
    {
      var middleIndex := if alphabetLength > 2 then (|alphabet| + 1) / 2 else 1;
      assert middleIndex == MiddleIndex(|alphabet|);
      var lower := if middleIndex < |alphabet| then middleIndex else |alphabet|;
      for i := 0 to lower
        invariant charDictionary.Keys == Symbols(alphabet[..i])
        invariant forall k :: 0 <= k < i ==> charDictionary[alphabet[k]] == 0
      {
        assert alphabet[..i + 1] == alphabet[..i] + [alphabet[i]];
        charDictionary := charDictionary[alphabet[i] := 0];
      }
      for i := lower to |alphabet|
        invariant charDictionary.Keys == Symbols(alphabet[..i])
        invariant forall k :: 0 <= k < lower ==> charDictionary[alphabet[k]] == 0
        invariant forall k :: lower <= k < i ==> charDictionary[alphabet[k]] == 1
      {
        assert alphabet[..i + 1] == alphabet[..i] + [alphabet[i]];
        forall k | 0 <= k < i
          ensures alphabet[k] != alphabet[i]
        {
          assert Different(alphabet, k, i);
        }
        charDictionary := charDictionary[alphabet[i] := 1];
      }
      assert alphabet[..|alphabet|] == alphabet;
    }

    /**
     * create_tree: collects and sorts the alphabet of `s`, builds the
     * dictionary and the bit vector, and, above two symbols, splits `s` by bit
     * and builds a child from each part.
     */
    method CreateTree(s: seq<char>)
      requires Unbuilt()
      modifies this
      ensures Valid() && Scope == s && fresh(Repr - {this})
      decreases |Symbols(s)|, 2
    {
      var alphabet := CollectAlphabet(s);
      alphabetLength := |alphabet|;
      DictionaryInit(alphabet);
      Scope, Alphabet := s, alphabet;

      if alphabetLength > 2 {
        var leftString, rightString := EncodeAndSplit(s);
        ghost var dict, bits := charDictionary, bitVector;
        assert |Symbols(leftString)| < |Symbols(s)| && |Symbols(rightString)| < |Symbols(s)| by {
          SplitAlphabet(s, dict, alphabet);
        }
        CreateChildren(leftString, rightString, |Symbols(s)|);
        LinkValid(s, alphabet, dict, bits);
      } else {
        Encode(s);
        Repr := {this};
      }
    }

    /**
     * The bit-vector loop of create_tree at a node with more than two symbols:
     * appends each character's bit and collects the characters of bit 0 and of
     * bit 1, in order, into the two child strings.
     */
    method EncodeAndSplit(s: seq<char>) returns (leftString: seq<char>, rightString: seq<char>)
      requires bitVector == [] && Symbols(s) <= charDictionary.Keys
      modifies this`bitVector
      ensures Encodes(bitVector, s, charDictionary)
      ensures leftString == Filter(s, charDictionary, 0)
      ensures rightString == Filter(s, charDictionary, 1)
    {
      leftString, rightString := [], [];
      for i := 0 to |s|
        invariant Encodes(bitVector, s[..i], charDictionary)
        invariant leftString == Filter(s[..i], charDictionary, 0)
        invariant rightString == Filter(s[..i], charDictionary, 1)
      {
        assert s[..i + 1] == s[..i] + [s[i]];
        assert s[i] in Symbols(s);
        var bitValue := charDictionary[s[i]];
        EncodesSnoc(bitVector, s[..i], charDictionary, s[i]);
        bitVector := bitVector + [bitValue];
        if bitValue == 0 {
          leftString := leftString + [s[i]];
        } else {
          rightString := rightString + [s[i]];
        }
      }
      assert s[..|s|] == s;
    }

    /** The bit-vector loop of create_tree at a leaf: one bit per character. */
    method Encode(s: seq<char>)
      requires bitVector == [] && Symbols(s) <= charDictionary.Keys
      modifies this`bitVector
      ensures Encodes(bitVector, s, charDictionary)
    {
      for i := 0 to |s|
        invariant Encodes(bitVector, s[..i], charDictionary)
      {
        assert s[..i + 1] == s[..i] + [s[i]];
        assert s[i] in Symbols(s);
        EncodesSnoc(bitVector, s[..i], charDictionary, s[i]);
        bitVector := bitVector + [charDictionary[s[i]]];
      }
      assert s[..|s|] == s;
    }

    /**
     * The end of create_tree at a node with more than two symbols: a new node
     * is built from the bit-0 characters of Scope and becomes the left child,
     * and one built from the bit-1 characters becomes the right child.
     */
    method CreateChildren(leftString: seq<char>, rightString: seq<char>, ghost bound: nat)
      requires |Symbols(leftString)| < bound && |Symbols(rightString)| < bound
      modifies this`left, this`right, this`Repr
      ensures left != null && left.Valid() && left.Scope == leftString && fresh(left.Repr)
      ensures right != null && right.Valid() && right.Scope == rightString && fresh(right.Repr)
      ensures left.Repr !! right.Repr && Repr == {this} + left.Repr + right.Repr
      ensures fresh(Repr - {this})
      decreases bound, 1
    {
      var l := Build(leftString, bound);
      var r := Build(rightString, bound);
      left, right := l, r;
      Repr := {this} + l.Repr + r.Repr;
    }

    /** A node whose two children are valid nodes built from its two child strings is valid. */
    lemma LinkValid(scope: seq<char>, alphabet: seq<char>, dict: map<char, Bit>, bits: seq<Bit>)
      requires Scope == scope && Alphabet == alphabet && charDictionary == dict && bitVector == bits
      requires IsAlphabetOf(alphabet, scope) && alphabetLength == |alphabet| && alphabetLength > 2
      requires HalvesDictionary(dict, alphabet) && Encodes(bits, scope, dict)
      requires left != null && left.Valid() && left.Scope == Filter(scope, dict, 0)
      requires right != null && right.Valid() && right.Scope == Filter(scope, dict, 1)
      requires Repr == {this} + left.Repr + right.Repr
      requires this !in left.Repr && this !in right.Repr && left.Repr !! right.Repr
      ensures Valid()
    {
      ChildAlphabets(alphabet, scope, dict, left.Alphabet, right.Alphabet);
      assert Content();
    }

    /** A new node filled in by create_tree from `s`, as each child is made. */
    static method Build(s: seq<char>, ghost bound: nat) returns (n: WaveletNode)
      requires |Symbols(s)| < bound
      ensures n.Valid() && n.Scope == s && fresh(n.Repr)
      decreases bound, 0
    {
      n := new WaveletNode();
      n.CreateTree(s);
    }

    /**
     * rank: the number of occurrences of `character` in Scope[0 .. index]
     * (clamped to the end of Scope), or KeyError when `character` does not
     * occur in Scope.
     */
    method Rank(index: int, character: char) returns (r: RankResult)
      requires Valid() && index >= -1
      ensures character in Symbols(Scope) ==> r == Count(Occ(Prefix(Scope, index), character))
      ensures character !in Symbols(Scope) ==> r == KeyError
      decreases Repr
    {
      if character !in charDictionary {
        assert character !in Symbols(Scope) by { assert Content(); }
        return KeyError;
      }
      var bit := charDictionary[character];
      var end := if index + 1 < |bitVector| then index + 1 else |bitVector|;
      var bitCounter := CountBit(bitVector, end, bit);
      if alphabetLength > 2 {
        var child := if bit == 0 then left else right;
        var below := bitCounter as int - 1;
        assert child != null && child in Repr && child.Repr <= Repr && this !in child.Repr && child.Valid() &&
          character in Symbols(child.Scope) &&
          Occ(Prefix(child.Scope, below), character) == Occ(Prefix(Scope, index), character) &&
          character in Symbols(Scope) by {
          assert Content();
          assert Prefix(Scope, index) == Scope[..end];
          assert character in Symbols(Scope);
          RankInternal(bitVector, Scope, charDictionary, character, end);
        }
        r := child.Rank(below, character);
      } else {
        assert character in Symbols(Scope) && bitCounter == Occ(Prefix(Scope, index), character) by {
          assert Content();
          assert Prefix(Scope, index) == Scope[..end];
          RankLeaf(bitVector, Scope, charDictionary, Alphabet, character, end);
        }
        r := Count(bitCounter);
      }
    }

    /** Number of levels of nodes from this node down to its deepest leaf. */
    ghost function Levels(): nat
      reads this, Repr
      requires Valid()
      decreases Repr
    {
      if left == null || right == null then 1
      else assert Content(); 1 + Max(left.Levels(), right.Levels())
    }

    /**
     * The subtree is no deeper than the rounded-up base-2 logarithm of the
     * alphabet size: a node of at least two symbols has more than
     * 2^(levels - 1) of them, and a node of at most two symbols is a leaf.
     */
    lemma LevelsBound()
      requires Valid()
      ensures alphabetLength <= 2 <==> Levels() == 1
      ensures alphabetLength >= 2 ==> Pow2(Levels() - 1) < alphabetLength
      decreases Repr
    {
      if left != null && right != null {
        var m := MiddleIndex(alphabetLength);
        assert left.Valid() && right.Valid() && alphabetLength > 2 &&
          left.alphabetLength == m && right.alphabetLength == alphabetLength - m by {
          assert Content();
          assert left.Valid() && right.Valid();
          assert left.Content();
          assert right.Content();
        }
        left.LevelsBound();
        right.LevelsBound();
        ChildHeight(left.Levels(), m, alphabetLength);
        ChildHeight(right.Levels(), alphabetLength - m, alphabetLength);
      }
    }
  }

  /**
   * The counting loop of rank: how many of the first `end` entries of the bit
   * vector equal `bit`.
   */
  method CountBit(bits: seq<Bit>, end: nat, bit: Bit) returns (count: nat)
    requires end <= |bits|
    ensures count == multiset(bits[..end])[bit]
  {
    count := 0;
    for i := 0 to end
      invariant count == multiset(bits[..i])[bit]
    {
      assert bits[..i + 1] == bits[..i] + [bits[i]];
      if bits[i] == bit {
        count := count + 1;
      }
    }
  }

  function Max(a: nat, b: nat): nat
  {
    if a < b then b else a
  }

  class WaveletTree {
    var data: seq<char>
    var rootNode: WaveletNode

    ghost var Repr: set<object>

    ghost predicate Valid()
      reads this, Repr
    {
      this in Repr &&
      rootNode in Repr && rootNode.Repr <= Repr && this !in rootNode.Repr &&
      rootNode.Valid() && rootNode.Scope == data
    }

    /** Builds the tree of `data`: a root node created from the whole input. */
    constructor (data: seq<char>)
      ensures Valid() && this.data == data && fresh(Repr)
    {
      this.data := data;
      var root := new WaveletNode();
      root.CreateTree(data);
      rootNode := root;
      Repr := {this} + root.Repr;
    }

    /** rank, delegated to the root node. */
    method Rank(position: int, character: char) returns (r: RankResult)
      requires Valid() && position >= -1
      ensures character in Symbols(data) ==> r == Count(Occ(Prefix(data, position), character))
      ensures character !in Symbols(data) ==> r == KeyError
    {
      r := rootNode.Rank(position, character);
    }
  }
}
