/** The bounded first-in-first-out list of message fingerprints behind a
    node's duplicate suppression (`_known_hashes` in propagate/node.py and in
    argh/node.py). */
module DedupCache {
  import opened Base

  /** `max_known_hashes_size`. */
  const MaxKnownHashes: nat := 1024 * 1024

  /** An md5 digest. */
  type Digest = s: Bytes | |s| == 16 witness seq(16, i => 0)

  /** Entries `i` and `j` of `s` hold different digests. */
  predicate Differ(s: seq<Digest>, i: nat, j: nat)
    requires i < |s| && j < |s|
  {
    s[i] != s[j]
  }

  /** No digest occurs twice. The quantifier fires only on `Differ` terms,
      so a proof names the pair of entries it needs. */
  predicate NoDuplicates(s: seq<Digest>) {
    forall i, j :: 0 <= i < j < |s| ==> Differ(s, i, j)
  }

  /** `s` is what is left of `t` after removing entries from the front. */
  predicate IsSuffix(s: seq<Digest>, t: seq<Digest>) {
    |s| <= |t| && s == t[|t| - |s|..]
  }

  /** What the trim loop leaves of a list: its newest `MaxKnownHashes` entries. */
  function Newest(s: seq<Digest>): seq<Digest> {
    if |s| <= MaxKnownHashes then s else s[|s| - MaxKnownHashes..]
  }

  /** What trimming keeps: the latest entries, at most `MaxKnownHashes` of
      them, and all of a list already within the bound. */
  lemma NewestShape(s: seq<Digest>)
    ensures |Newest(s)| <= MaxKnownHashes && IsSuffix(Newest(s), s)
    ensures |s| <= MaxKnownHashes ==> Newest(s) == s
    ensures |s| > MaxKnownHashes ==> |Newest(s)| == MaxKnownHashes
  {
  }

  /** The list once `_relay` has seen digest `d`: `d` is appended unless it
      is already present, then the oldest entries go while the list is too long. */
  function Admit(known: seq<Digest>, d: Digest): (r: seq<Digest>)
    ensures |r| <= MaxKnownHashes
  {
    Newest(if d in known then known else known + [d])
  }

  /** What admitting keeps: the list is what remains of the old list, with
      the digest appended if new, after removal from the front. A known
      digest leaves a bounded list alone; a new one goes at the end and, when
      the list is full, displaces exactly the oldest entry. */
  lemma AdmitShape(known: seq<Digest>, d: Digest)
    ensures IsSuffix(Admit(known, d), if d in known then known else known + [d])
    ensures d in known && |known| <= MaxKnownHashes ==> Admit(known, d) == known
    ensures d !in known && |known| < MaxKnownHashes ==> Admit(known, d) == known + [d]
    ensures d !in known && |known| == MaxKnownHashes ==> Admit(known, d) == known[1..] + [d]
    ensures d !in known ==> |Admit(known, d)| > 0 && Admit(known, d)[|Admit(known, d)| - 1] == d
  {
  }

  /** A digest the list has just admitted is found there on the next message,
      as long as the list was within its bound. */
  lemma AdmittedIsKnown(known: seq<Digest>, d: Digest)
    requires |known| <= MaxKnownHashes
    ensures d in Admit(known, d)
  {
    AdmitShape(known, d);
    if d !in known {
      var r := Admit(known, d);
      assert r[|r| - 1] == d;
    }
  }

  /** Trimming from the front keeps a list free of repeated digests. */
  lemma SuffixKeepsDistinct(s: seq<Digest>, t: seq<Digest>)
    requires NoDuplicates(t) && IsSuffix(s, t)
    ensures NoDuplicates(s)
  {
    var o := |t| - |s|;
    forall i, j | 0 <= i < j < |s| ensures Differ(s, i, j) {
      assert s[i] == t[o + i] && s[j] == t[o + j];
      assert Differ(t, o + i, o + j);
    }
  }

  /** Every entry of `t` from the cut onwards is still in its suffix `s`. */
  lemma SuffixHolds(s: seq<Digest>, t: seq<Digest>)
    requires IsSuffix(s, t)
    ensures forall k :: |t| - |s| <= k < |t| ==> t[k] in s
  {
    forall k | |t| - |s| <= k < |t| ensures t[k] in s {
      assert s[k - (|t| - |s|)] == t[k];
    }
  }

  /** The list before trimming has no repeated digest either. */
  lemma AppendKeepsDistinct(known: seq<Digest>, d: Digest)
    requires NoDuplicates(known)
    ensures NoDuplicates(if d in known then known else known + [d])
  {
    if d !in known {
      var t := known + [d];
      forall i, j | 0 <= i < j < |t| ensures Differ(t, i, j) {
        if j == |known| {
          assert t[i] == known[i];
        } else {
          assert t[i] == known[i] && t[j] == known[j];
          assert Differ(known, i, j);
        }
      }
    }
  }

  /** Admitting a digest never creates a duplicate entry. */
  lemma AdmitKeepsDistinct(known: seq<Digest>, d: Digest)
    requires NoDuplicates(known)
    ensures NoDuplicates(Admit(known, d))
  {
    AppendKeepsDistinct(known, d);
    AdmitShape(known, d);
    SuffixKeepsDistinct(Admit(known, d), if d in known then known else known + [d]);
  }

  /** Eviction is oldest first: when an entry has been dropped, so has every
      entry older than it. */
  lemma OldestEvictedFirst(known: seq<Digest>, d: Digest, i: nat, j: nat)
    requires NoDuplicates(known)
    requires i < j < |known| && known[j] !in Admit(known, d)
    ensures known[i] !in Admit(known, d)
  {
    var t := if d in known then known else known + [d];
    var r := Admit(known, d);
    var o := |t| - |r|;
    AdmitShape(known, d);
    SuffixHolds(r, t);
    assert t[j] == known[j];
    assert o > j;
    AppendKeepsDistinct(known, d);
    forall k | 0 <= k < |r| ensures r[k] != known[i] {
      assert r[k] == t[o + k] && known[i] == t[i];
      assert Differ(t, i, o + k);
    }
  }
}
