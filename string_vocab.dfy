/** The optional value returned by the vocabulary's lookups (absl::optional). */
module Optional {

  datatype Option<+T> = None | Some(value: T)
}

/**
 * The id <-> string vocabulary table used by the phrase tokenizer.
 *
 * A StringVocab keeps the ordered list of phrase strings it was built from
 * and a hash map from each string to an id. The map is filled by one
 * left-to-right pass over the list in which a later assignment overwrites an
 * earlier one, so a string that occurs several times maps to the LAST index
 * at which it occurs, and the number of map entries is the number of
 * distinct strings, which can be smaller than the length of the list.
 */
module PhraseTokenizer {

  import opened Optional

  /** The status the lookups of the vocabulary interface report; this table only ever reports Ok. */
  datatype LookupStatus = Ok | Error(message: string)

  // ---------------------------------------------------------------------
  // Specification of the table, on values
  // ---------------------------------------------------------------------

  /** The index map after the construction pass over `vocab`: entry i is written at step i. */
  function BuildIndex(vocab: seq<string>): map<string, int>
    decreases |vocab|
  {
    if vocab == [] then map[]
    else BuildIndex(vocab[..|vocab| - 1])[vocab[|vocab| - 1] := |vocab| - 1]
  }

  /** `i` is the largest index at which `key` occurs in `vocab`. */
  ghost predicate IsLastIndex(vocab: seq<string>, key: string, i: int)
  {
    && 0 <= i < |vocab|
    && vocab[i] == key
    && forall j :: i < j < |vocab| ==> vocab[j] != key
  }

  /** The distinct strings of `vocab`. */
  ghost function Elements(vocab: seq<string>): set<string>
  {
    set i | 0 <= i < |vocab| :: vocab[i]
  }

  /** No string occurs twice in `vocab`. */
  ghost predicate NoDuplicates(vocab: seq<string>)
  {
    forall i, j :: 0 <= i < j < |vocab| ==> vocab[i] != vocab[j]
  }

  /**
   * The construction pass maps exactly the strings of `vocab`, and each to
   * the last index at which it occurs.
   */
  lemma {:induction false} BuildIndexMapsToLastIndex(vocab: seq<string>, key: string)
    ensures key in BuildIndex(vocab) <==> key in vocab
    ensures key in BuildIndex(vocab) ==> IsLastIndex(vocab, key, BuildIndex(vocab)[key])
  {
    if vocab != [] {
      var n := |vocab|;
      var prefix := vocab[..n - 1];
      assert vocab == prefix + [vocab[n - 1]];
      BuildIndexMapsToLastIndex(prefix, key);
      if key != vocab[n - 1] {
        if key in BuildIndex(prefix) {
          var i := BuildIndex(prefix)[key];
          assert vocab[i] == prefix[i];
        }
        if key in vocab {
          var k :| 0 <= k < n && vocab[k] == key;
          assert prefix[k] == key;
        }
      }
    }
  }

  /** The keys of the index map are the distinct strings of `vocab`. */
  lemma BuildIndexKeys(vocab: seq<string>)
    ensures BuildIndex(vocab).Keys == Elements(vocab)
  {
    forall key | true
      ensures key in BuildIndex(vocab) <==> key in Elements(vocab)
    {
      BuildIndexMapsToLastIndex(vocab, key);
    }
  }

  /**
   * The index map has at most one entry per list element, and exactly one
   * per element precisely when the list has no duplicates.
   */
  lemma {:induction false} BuildIndexSize(vocab: seq<string>)
    ensures |BuildIndex(vocab)| <= |vocab|
    ensures |BuildIndex(vocab)| == |vocab| <==> NoDuplicates(vocab)
  {
    if vocab != [] {
      var n := |vocab|;
      var prefix := vocab[..n - 1];
      var last := vocab[n - 1];
      BuildIndexSize(prefix);
      BuildIndexMapsToLastIndex(prefix, last);
      var m := BuildIndex(prefix);
      if last in m {
        assert BuildIndex(vocab).Keys == m.Keys;
        var k :| 0 <= k < n - 1 && prefix[k] == last;
        assert vocab[k] == vocab[n - 1];
      } else {
        assert BuildIndex(vocab).Keys == m.Keys + {last};
        assert NoDuplicates(vocab) <==> NoDuplicates(prefix) by {
          if NoDuplicates(prefix) {
            forall i, j | 0 <= i < j < n ensures vocab[i] != vocab[j] {
              if j == n - 1 {
                assert prefix[i] == vocab[i];
              } else {
                assert prefix[i] != prefix[j];
              }
            }
          }
          if NoDuplicates(vocab) {
            forall i, j | 0 <= i < j < n - 1 ensures prefix[i] != prefix[j] {
              assert vocab[i] != vocab[j];
            }
          }
        }
      }
    }
  }

  // ---------------------------------------------------------------------
  // The table itself
  // ---------------------------------------------------------------------

  class StringVocab {
    /** The phrase strings, in order; the id of a string is its position. */
    var vocab: seq<string>
    /** From each string to the id it was last assigned during construction. */
    var indexMap: map<string, int>

    /** The index map is the one the construction pass builds from `vocab`. */
    ghost predicate Valid()
      reads this
    {
      indexMap == BuildIndex(vocab)
    }

    /**
     * Copies the list, then assigns `indexMap[vocab[i]] := i` for
     * i = 0, 1, ... in turn; after i steps the map sends each string of the
     * first i entries to its last position among them.
     */
    constructor (v: seq<string>)
      ensures vocab == v
      ensures Valid()
      ensures forall key :: key in indexMap <==> key in v
      ensures forall key :: key in indexMap ==> IsLastIndex(v, key, indexMap[key])
    {
      vocab := v;
      indexMap := map[];
      new;
      var i := 0;
      while i < |v|
        invariant 0 <= i <= |v|
        invariant vocab == v
        invariant indexMap == BuildIndex(v[..i])
      {
        assert v[..i + 1][..i] == v[..i];
        indexMap := indexMap[vocab[i] := i];
        i := i + 1;
      }
      assert v[..i] == v;
      forall key | true
        ensures (key in indexMap <==> key in v)
        ensures key in indexMap ==> IsLastIndex(v, key, indexMap[key])
      {
        BuildIndexMapsToLastIndex(v, key);
      }
    }

    /**
     * Writes to `value` whether `key` is a string of the vocabulary; the
     * status is always Ok.
     */
    method Contains(key: string) returns (status: LookupStatus, value: bool)
      requires Valid()
      ensures status == Ok
      ensures value <==> key in vocab
      ensures value <==> LookupId(key).Some?
    {
      BuildIndexMapsToLastIndex(vocab, key);
      value := key in indexMap;
      status := Ok;
    }

    /**
     * The id of `key`: present exactly when `key` is in the list, and then
     * the largest index at which it occurs.
     */
    function LookupId(key: string): (r: Option<int>)
      reads this
      requires Valid()
      ensures r.Some? <==> key in vocab
      ensures r.Some? ==> IsLastIndex(vocab, key, r.value)
    {
      BuildIndexMapsToLastIndex(vocab, key);
      if key in indexMap then Some(indexMap[key]) else None
    }

    /**
     * The string with id `vocabId`, or None when the id is negative or not
     * below the length of the list (not the number of distinct strings).
     */
    function LookupWord(vocabId: int): (r: Option<string>)
      reads this
      ensures r.None? <==> vocabId < 0 || vocabId >= |vocab|
      ensures r.Some? ==> r.value == vocab[vocabId]
    {
      if vocabId >= |vocab| || vocabId < 0 then None else Some(vocab[vocabId])
    }

    /**
     * The number of entries in the index map: the number of distinct strings,
     * at most the length of the list and equal to it exactly when the list
     * has no duplicates.
     */
    function Size(): (n: nat)
      reads this
      requires Valid()
      ensures n == |Elements(vocab)|
      ensures n <= |vocab|
      ensures n == |vocab| <==> NoDuplicates(vocab)
    {
      BuildIndexKeys(vocab);
      BuildIndexSize(vocab);
      assert |indexMap| == |indexMap.Keys|;
      |indexMap|
    }

    /** Every valid id gives back the string at that position. */
    lemma WordAtEveryId(i: int)
      requires Valid()
      requires 0 <= i < |vocab|
      ensures LookupWord(i) == Some(vocab[i])
      ensures LookupId(vocab[i]).Some? && LookupId(vocab[i]).value >= i
    {
    }

    /** An id found for a string gives that string back. */
    lemma IdThenWord(key: string)
      requires Valid()
      ensures LookupId(key).Some? ==> LookupWord(LookupId(key).value) == Some(key)
    {
    }

    /** With no duplicates, ids and strings are in one-to-one correspondence. */
    lemma WordThenId(i: int)
      requires Valid()
      requires NoDuplicates(vocab)
      requires 0 <= i < |vocab|
      ensures LookupWord(i).Some?
      ensures LookupId(LookupWord(i).value) == Some(i)
    {
    }

    /** With a duplicate, an earlier position is never the id of its string. */
    lemma DuplicateLosesEarlierId(i: int, j: int)
      requires Valid()
      requires 0 <= i < j < |vocab| && vocab[i] == vocab[j]
      ensures LookupId(vocab[i]) != Some(i)
      ensures Size() < |vocab|
    {
    }
  }
}
