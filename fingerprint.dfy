/**
 * The state fingerprint used as the transposition-table key: a hash of the set
 * of hook (player, position) items combined with a hash of the set of fish
 * (id, position) items. The two hash functions are parameters standing for
 * Python's built-in `hash` of a frozenset and of a pair.
 */
module Fingerprint {
  import opened GameTree

  type Item = (int, Pos)

  datatype Hasher = Hasher(ofSet: set<Item> -> int, ofPair: (int, int) -> int)

  /** The fingerprint of a snapshot; the player to move is not part of it. */
  function HashState(h: Hasher, s: Snapshot): int {
    h.ofPair(h.ofSet(s.hooks.Items), h.ofSet(s.fish.Items))
  }

  /** A hasher that never collides. */
  ghost predicate Injective(h: Hasher) {
    && (forall a, b :: h.ofSet(a) == h.ofSet(b) ==> a == b)
    && (forall x1, y1, x2, y2 :: h.ofPair(x1, y1) == h.ofPair(x2, y2) ==> x1 == x2 && y1 == y2)
  }

  /** Two snapshots with the same hook and fish maps share a fingerprint,
      whichever player is to move and whatever else differs. */
  lemma SameMapsSameFingerprint(h: Hasher, a: Snapshot, b: Snapshot)
    requires a.hooks == b.hooks && a.fish == b.fish
    ensures HashState(h, a) == HashState(h, b)
  {
  }

  /** A map is determined by its set of (key, value) items. */
  lemma ItemsDetermineMap<K, V>(m1: map<K, V>, m2: map<K, V>)
    requires m1.Items == m2.Items
    ensures m1 == m2
  {
    forall k | k in m1
      ensures k in m2 && m2[k] == m1[k]
    {
      assert (k, m1[k]) in m1.Items;
    }
    forall k | k in m2
      ensures k in m1
    {
      assert (k, m2[k]) in m2.Items;
    }
  }

  /** With a collision-free hasher, equal fingerprints mean equal hook and fish maps. */
  lemma InjectiveFingerprintSeparates(h: Hasher, a: Snapshot, b: Snapshot)
    requires Injective(h)
    ensures HashState(h, a) == HashState(h, b) <==> a.hooks == b.hooks && a.fish == b.fish
  {
    if HashState(h, a) == HashState(h, b) {
      ItemsDetermineMap(a.hooks, b.hooks);
      ItemsDetermineMap(a.fish, b.fish);
    }
  }
}
