/**
 * The listing `List` builds: the remote base directory's entries, in the
 * order they are read, without the `.` and `..` pseudo-entries, each
 * decorated with the catalog's stored mountpoint when the catalog knows it.
 */
module Listing {
  import opened VolumeCatalog

  /** A volume as reported to Docker: its name and, possibly empty, mountpoint. */
  datatype VolumeInfo = VolumeInfo(name: string, mountpoint: string)

  /** The self and parent entries a directory read yields. */
  predicate IsPseudo(entry: string)
  {
    entry == "." || entry == ".."
  }

  /** One remote entry with the local knowledge the catalog has about it. */
  function Decorate(c: Catalog, entry: string): VolumeInfo
  {
    VolumeInfo(entry, if entry in c then c[entry].mountPath else "")
  }

  /** The listing of `entries`, built in read order. */
  function Decorated(c: Catalog, entries: seq<string>): (ls: seq<VolumeInfo>)
    ensures |ls| <= |entries|
    decreases |entries|
  {
    if entries == [] then []
    else
      var last := entries[|entries| - 1];
      Decorated(c, entries[..|entries| - 1]) + (if IsPseudo(last) then [] else [Decorate(c, last)])
  }

  /**
   * Every reported volume is a non-pseudo remote entry carrying the catalog's
   * path for it, empty when the catalog does not know it; so catalog-only
   * names never appear.
   */
  lemma {:induction false} DecoratedSound(c: Catalog, entries: seq<string>)
    ensures forall v :: v in Decorated(c, entries) ==>
      && v.name in entries
      && !IsPseudo(v.name)
      && v.mountpoint == (if v.name in c then c[v.name].mountPath else "")
    decreases |entries|
  {
    if entries != [] {
      var init := entries[..|entries| - 1];
      assert entries == init + [entries[|entries| - 1]];
      DecoratedSound(c, init);
    }
  }

  /** Every non-pseudo remote entry is reported. */
  lemma {:induction false} DecoratedComplete(c: Catalog, entries: seq<string>)
    ensures forall e :: e in entries && !IsPseudo(e) ==> Decorate(c, e) in Decorated(c, entries)
    decreases |entries|
  {
    if entries != [] {
      var init := entries[..|entries| - 1];
      assert entries == init + [entries[|entries| - 1]];
      DecoratedComplete(c, init);
    }
  }

  /** The listing follows the read order: listing a concatenation concatenates the listings. */
  lemma {:induction false} DecoratedAppend(c: Catalog, a: seq<string>, b: seq<string>)
    ensures Decorated(c, a + b) == Decorated(c, a) + Decorated(c, b)
    decreases |b|
  {
    if b == [] {
      assert a + b == a;
    } else {
      var init, last := b[..|b| - 1], b[|b| - 1];
      var tail := if IsPseudo(last) then [] else [Decorate(c, last)];
      var ab := a + b;
      assert ab[..|ab| - 1] == a + init && ab[|ab| - 1] == last;
      assert Decorated(c, ab) == Decorated(c, a + init) + tail;
      assert Decorated(c, b) == Decorated(c, init) + tail;
      DecoratedAppend(c, a, init);
    }
  }

  /** Exactly the pseudo-entries are dropped: the listing is as long as the non-pseudo entries are many. */
  lemma {:induction false} DecoratedLength(c: Catalog, entries: seq<string>)
    ensures |Decorated(c, entries)| == |entries| - PseudoCount(entries)
    decreases |entries|
  {
    if entries != [] {
      DecoratedLength(c, entries[..|entries| - 1]);
    }
  }

  /** How many pseudo-entries `entries` holds. */
  function PseudoCount(entries: seq<string>): nat
    decreases |entries|
  {
    if entries == [] then 0
    else PseudoCount(entries[..|entries| - 1]) + (if IsPseudo(entries[|entries| - 1]) then 1 else 0)
  }
}
