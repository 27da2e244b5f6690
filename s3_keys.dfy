/** The key source of clone-s3-bucket.py: `S3.bucket_keys`, a generator that turns the
    per-prefix object listings of the source bucket into batches of at most 1000 keys. */
module S3Keys {

  type ObjectKey = string

  /** Largest batch `bucket_keys` yields. */
  const BatchLimit: nat := 1000

  function Flatten<T>(batches: seq<seq<T>>): seq<T>
    decreases |batches|
  {
    if batches == [] then [] else batches[0] + Flatten(batches[1..])
  }

  /** The full batches of BatchLimit keys that cutting `s` from the front produces. */
  function FullBatches(s: seq<ObjectKey>): seq<seq<ObjectKey>>
    decreases |s|
  {
    if |s| < BatchLimit then [] else [s[..BatchLimit]] + FullBatches(s[BatchLimit..])
  }

  /** What is left of `s` after its full batches are cut off. */
  function Leftover(s: seq<ObjectKey>): seq<ObjectKey>
    decreases |s|
  {
    if |s| < BatchLimit then s else Leftover(s[BatchLimit..])
  }

  /** The batches yielded for one prefix whose listing is `listing`, when the list being filled
      already holds `carry`: the full batches, then whatever remains (possibly nothing). */
  function PrefixBatches(carry: seq<ObjectKey>, listing: seq<ObjectKey>): seq<seq<ObjectKey>>
  {
    FullBatches(carry + listing) + [Leftover(carry + listing)]
  }

  /** Batches yielded for the remaining prefix listings; the list being filled is not cleared
      at the end of a prefix, so `Leftover` is carried into the next prefix. */
  function BatchesFrom(carry: seq<ObjectKey>, listings: seq<seq<ObjectKey>>): seq<seq<ObjectKey>>
    decreases |listings|
  {
    if listings == [] then []
    else PrefixBatches(carry, listings[0]) + BatchesFrom(Leftover(carry + listings[0]), listings[1..])
  }

  /** Everything `bucket_keys` yields for the listings of its prefixes, in order. */
  function KeyBatches(listings: seq<seq<ObjectKey>>): seq<seq<ObjectKey>>
  {
    BatchesFrom([], listings)
  }

  /** Appending one key: the list either grows or reaches BatchLimit and becomes a full batch. */
  lemma {:induction false} AppendKey(s: seq<ObjectKey>, x: ObjectKey)
    ensures |Leftover(s)| < BatchLimit
    ensures |Leftover(s)| + 1 == BatchLimit ==>
              FullBatches(s + [x]) == FullBatches(s) + [Leftover(s) + [x]] && Leftover(s + [x]) == []
    ensures |Leftover(s)| + 1 < BatchLimit ==>
              FullBatches(s + [x]) == FullBatches(s) && Leftover(s + [x]) == Leftover(s) + [x]
    decreases |s|
  {
    if |s| >= BatchLimit {
      assert (s + [x])[..BatchLimit] == s[..BatchLimit];
      assert (s + [x])[BatchLimit..] == s[BatchLimit..] + [x];
      AppendKey(s[BatchLimit..], x);
    } else if |s| + 1 == BatchLimit {
      assert (s + [x])[..BatchLimit] == s + [x];
      assert (s + [x])[BatchLimit..] == [];
    }
  }

  /** The inner loop of `S3.bucket_keys`: appends the keys of one listing to the list being
      filled, which already holds `carry`, and yields that list each time it reaches BatchLimit. */
  method FillBatches(carry: seq<ObjectKey>, listing: seq<ObjectKey>) returns (full: seq<seq<ObjectKey>>, keys: seq<ObjectKey>)
    requires |carry| < BatchLimit
    ensures full == FullBatches(carry + listing) && keys == Leftover(carry + listing)
  {
    full, keys := [], carry;
    assert carry + listing[..0] == carry;
    for j := 0 to |listing|
      invariant full == FullBatches(carry + listing[..j])
      invariant keys == Leftover(carry + listing[..j])
    {
      AppendKeyAt(carry, listing, j);
      keys := keys + [listing[j]];
      if |keys| == BatchLimit {
        full := full + [keys];
        keys := [];
      }
    }
    assert listing[..|listing|] == listing;
  }

  /** `S3.bucket_keys`: `listings[p]` is the listing `bucket.objects.filter(Prefix=...)` returns
      for the p-th configured prefix; the yielded lists are returned in yield order. */
  method BucketKeys(listings: seq<seq<ObjectKey>>) returns (batches: seq<seq<ObjectKey>>)
    ensures batches == KeyBatches(listings)
  {
    var keys: seq<ObjectKey> := [];
    batches := [];
    for p := 0 to |listings|
      invariant batches + BatchesFrom(keys, listings[p..]) == KeyBatches(listings)
      invariant |keys| < BatchLimit
    {
      ghost var before, carry := batches, keys;
      NextPrefix(carry, listings, p);
      FullBatchesSplit(carry + listings[p]);
      var full, rest := FillBatches(keys, listings[p]);
      // the listing is exhausted: the for/else branch yields what is left, without clearing it
      batches := batches + (full + [rest]);
      keys := rest;
      assert before + BatchesFrom(carry, listings[p..]) == batches + BatchesFrom(keys, listings[p + 1..]);
    }
  }

  /** The inner loop's step: key `j` of `listing` appended after `carry` and the first `j` keys. */
  lemma AppendKeyAt(carry: seq<ObjectKey>, listing: seq<ObjectKey>, j: nat)
    requires j < |listing|
    ensures var s := carry + listing[..j];
            var x := listing[j];
            && carry + listing[..j + 1] == s + [x]
            && (|Leftover(s)| + 1 == BatchLimit ==>
                  FullBatches(s + [x]) == FullBatches(s) + [Leftover(s) + [x]] && Leftover(s + [x]) == [])
            && (|Leftover(s)| + 1 != BatchLimit ==>
                  FullBatches(s + [x]) == FullBatches(s) && Leftover(s + [x]) == Leftover(s) + [x])
  {
    assert carry + listing[..j + 1] == carry + listing[..j] + [listing[j]];
    AppendKey(carry + listing[..j], listing[j]);
  }

  /** The outer loop's step: one prefix's batches, then the next prefixes from its leftover. */
  lemma NextPrefix(carry: seq<ObjectKey>, listings: seq<seq<ObjectKey>>, p: nat)
    requires p < |listings|
    ensures BatchesFrom(carry, listings[p..])
            == PrefixBatches(carry, listings[p]) + BatchesFrom(Leftover(carry + listings[p]), listings[p + 1..])
  {
    assert listings[p..][0] == listings[p];
    assert listings[p..][1..] == listings[p + 1..];
  }

  /** The batches `bucket_keys` would yield if it cleared the list after each prefix's final
      yield: every prefix starts from an empty list. */
  function ResetBatches(listings: seq<seq<ObjectKey>>): seq<seq<ObjectKey>>
    decreases |listings|
  {
    if listings == [] then [] else PrefixBatches([], listings[0]) + ResetBatches(listings[1..])
  }

  /** `S3.bucket_keys` with `keys = []` after the yield of its `else` branch. */
  method BucketKeysCorrected(listings: seq<seq<ObjectKey>>) returns (batches: seq<seq<ObjectKey>>)
    ensures batches == ResetBatches(listings)
  {
    batches := [];
    for p := 0 to |listings|
      invariant batches + ResetBatches(listings[p..]) == ResetBatches(listings)
    {
      ghost var before := batches;
      NextResetPrefix(listings, p);
      var full, rest := FillBatches([], listings[p]);
      batches := batches + (full + [rest]);
      assert before + ResetBatches(listings[p..]) == batches + ResetBatches(listings[p + 1..]);
    }
  }

  /** The corrected outer loop's step: one prefix's batches from an empty list, then the rest. */
  lemma NextResetPrefix(listings: seq<seq<ObjectKey>>, p: nat)
    requires p < |listings|
    ensures ResetBatches(listings[p..]) == PrefixBatches([], listings[p]) + ResetBatches(listings[p + 1..])
  {
    assert listings[p..][0] == listings[p];
    assert listings[p..][1..] == listings[p + 1..];
  }

  /** With the list cleared, the batches hold every listed key exactly once, in listing order,
      and none holds more than BatchLimit keys. */
  lemma {:induction false} ResetBatchesExact(listings: seq<seq<ObjectKey>>)
    ensures Flatten(ResetBatches(listings)) == Flatten(listings)
    ensures forall b :: b in ResetBatches(listings) ==> |b| <= BatchLimit
    decreases |listings|
  {
    if listings != [] {
      ResetBatchesExact(listings[1..]);
      FlattenAppend(PrefixBatches([], listings[0]), ResetBatches(listings[1..]));
      PrefixYieldsCarryThenListing([], listings[0]);
      assert [] + listings[0] == listings[0];
      FullBatchesSplit(listings[0]);
    }
  }

  /** The full batches hold exactly BatchLimit keys, the leftover fewer, and together they
      give back the cut sequence in order. */
  lemma {:induction false} FullBatchesSplit(s: seq<ObjectKey>)
    ensures forall b :: b in FullBatches(s) ==> |b| == BatchLimit
    ensures |Leftover(s)| < BatchLimit
    ensures Flatten(FullBatches(s)) + Leftover(s) == s
    decreases |s|
  {
    if |s| >= BatchLimit {
      FullBatchesSplit(s[BatchLimit..]);
      calc {
        Flatten(FullBatches(s)) + Leftover(s);
        s[..BatchLimit] + Flatten(FullBatches(s[BatchLimit..])) + Leftover(s[BatchLimit..]);
        s[..BatchLimit] + s[BatchLimit..];
        s;
      }
    }
  }

  /** No yielded batch is larger than BatchLimit. */
  lemma {:induction false} BatchesBounded(carry: seq<ObjectKey>, listings: seq<seq<ObjectKey>>)
    ensures forall b :: b in BatchesFrom(carry, listings) ==> |b| <= BatchLimit
    decreases |listings|
  {
    if listings != [] {
      FullBatchesSplit(carry + listings[0]);
      BatchesBounded(Leftover(carry + listings[0]), listings[1..]);
    }
  }

  /** Number of batches shorter than BatchLimit. */
  function ShortCount(batches: seq<seq<ObjectKey>>): nat
    decreases |batches|
  {
    if batches == [] then 0
    else (if |batches[0]| < BatchLimit then 1 else 0) + ShortCount(batches[1..])
  }

  lemma {:induction false} ShortCountAppend(a: seq<seq<ObjectKey>>, b: seq<seq<ObjectKey>>)
    ensures ShortCount(a + b) == ShortCount(a) + ShortCount(b)
    decreases |a|
  {
    if a != [] {
      assert (a + b)[0] == a[0];
      assert (a + b)[1..] == a[1..] + b;
      ShortCountAppend(a[1..], b);
    } else {
      assert a + b == b;
    }
  }

  lemma {:induction false} FullBatchesNotShort(s: seq<ObjectKey>)
    ensures ShortCount(FullBatches(s)) == 0
    decreases |s|
  {
    if |s| >= BatchLimit {
      FullBatchesNotShort(s[BatchLimit..]);
      assert FullBatches(s)[1..] == FullBatches(s[BatchLimit..]);
    }
  }

  /** One batch, possibly empty, is yielded at the end of every prefix listing and all the
      others are full, so a run over n prefixes yields exactly n batches shorter than BatchLimit. */
  lemma {:induction false} ShortBatchPerPrefix(carry: seq<ObjectKey>, listings: seq<seq<ObjectKey>>)
    ensures ShortCount(BatchesFrom(carry, listings)) == |listings|
    decreases |listings|
  {
    if listings != [] {
      var s := carry + listings[0];
      FullBatchesSplit(s);
      FullBatchesNotShort(s);
      ShortCountAppend(FullBatches(s), [Leftover(s)]);
      assert ShortCount([Leftover(s)]) == 1 by {
        assert [Leftover(s)][1..] == [];
      }
      ShortCountAppend(PrefixBatches(carry, listings[0]), BatchesFrom(Leftover(s), listings[1..]));
      ShortBatchPerPrefix(Leftover(s), listings[1..]);
    }
  }

  /** For a single prefix the yielded batches are exactly the listing, in order. */
  lemma SinglePrefixInOrder(listing: seq<ObjectKey>)
    ensures Flatten(KeyBatches([listing])) == listing
  {
    var s := [] + listing;
    assert s == listing;
    FullBatchesSplit(s);
    FlattenAppend(FullBatches(s), [Leftover(s)]);
    assert [listing][1..] == [];
    assert BatchesFrom(Leftover(s), []) == [];
    assert KeyBatches([listing]) == PrefixBatches([], listing) + [];
    assert PrefixBatches([], listing) + [] == PrefixBatches([], listing);
    assert Flatten([Leftover(s)]) == Leftover(s) by {
      assert [Leftover(s)][1..] == [];
    }
  }

  lemma {:induction false} FlattenAppend<T>(a: seq<seq<T>>, b: seq<seq<T>>)
    ensures Flatten(a + b) == Flatten(a) + Flatten(b)
    decreases |a|
  {
    if a != [] {
      assert (a + b)[0] == a[0];
      assert (a + b)[1..] == a[1..] + b;
      FlattenAppend(a[1..], b);
    } else {
      assert a + b == b;
    }
  }

  /** What one prefix contributes: the carried-over keys again, then its own listing. */
  lemma PrefixYieldsCarryThenListing(carry: seq<ObjectKey>, listing: seq<ObjectKey>)
    ensures Flatten(PrefixBatches(carry, listing)) == carry + listing
  {
    FullBatchesSplit(carry + listing);
    FlattenAppend(FullBatches(carry + listing), [Leftover(carry + listing)]);
  }

  /** Every key of every listing is yielded, and every yielded key comes from some listing. */
  lemma {:induction false} YieldedKeys(carry: seq<ObjectKey>, listings: seq<seq<ObjectKey>>, k: ObjectKey)
    requires listings != []
    ensures k in Flatten(BatchesFrom(carry, listings)) <==>
              k in carry || exists p :: 0 <= p < |listings| && k in listings[p]
    decreases |listings|
  {
    var s := carry + listings[0];
    var tail := BatchesFrom(Leftover(s), listings[1..]);
    FlattenAppend(PrefixBatches(carry, listings[0]), tail);
    PrefixYieldsCarryThenListing(carry, listings[0]);
    FullBatchesSplit(s);
    assert k in Leftover(s) ==> k in s;
    if listings[1..] != [] {
      YieldedKeys(Leftover(s), listings[1..], k);
      if exists p :: 0 <= p < |listings[1..]| && k in listings[1..][p] {
        var p :| 0 <= p < |listings[1..]| && k in listings[1..][p];
        assert k in listings[p + 1];
      }
      if exists p :: 0 <= p < |listings| && k in listings[p] {
        var p :| 0 <= p < |listings| && k in listings[p];
        if p > 0 {
          assert k in listings[1..][p - 1];
        }
      }
    } else {
      assert tail == [];
    }
  }

  /** With no prefixes configured (the script's default) nothing is yielded. */
  lemma NoPrefixesNoKeys()
    ensures Flatten(KeyBatches([])) == []
  {
  }

  /** The leftover of one prefix is yielded again ahead of the next prefix's keys:
      listings ["a"] then ["b"] give the batches ["a"] and ["a", "b"]. */
  lemma LeftoverYieldedTwice()
    ensures KeyBatches([["a"], ["b"]]) == [["a"], ["a", "b"]]
  {
    assert ([] + ["a"]) == ["a"];
    assert FullBatches(["a"]) == [];
    assert Leftover(["a"]) == ["a"];
    assert ["a"] + ["b"] == ["a", "b"];
    assert FullBatches(["a", "b"]) == [];
    assert Leftover(["a", "b"]) == ["a", "b"];
    assert [["a"], ["b"]][1..] == [["b"]];
  }
}
