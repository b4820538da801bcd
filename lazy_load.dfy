/**
 * The IntersectionObserver callback for product images: every image whose
 * entry reports that it intersects the viewport gets the class `loaded`
 * and is no longer observed.
 */
module LazyLoad {

  /** The identity of one `.card img` element. */
  type ImageId = nat

  /** One IntersectionObserverEntry: its target and `isIntersecting`. */
  datatype Entry = Entry(target: ImageId, isIntersecting: bool)

  /** The images that a batch of entries reports as intersecting. */
  function Revealed(entries: seq<Entry>): (r: set<ImageId>)
    ensures forall i :: 0 <= i < |entries| && entries[i].isIntersecting ==> entries[i].target in r
    ensures forall img :: img in r ==> exists i :: 0 <= i < |entries| && entries[i] == Entry(img, true)
  {
    if entries == [] then {}
    else
      var n := |entries| - 1;
      var rest := Revealed(entries[..n]);
      assert forall i :: 0 <= i < n ==> entries[..n][i] == entries[i];
      if entries[n].isIntersecting then rest + {entries[n].target} else rest
  }

  /** Two batches delivered one after the other reveal what one batch
      holding all their entries reveals. */
  lemma {:induction false} RevealedConcat(a: seq<Entry>, b: seq<Entry>)
    ensures Revealed(a + b) == Revealed(a) + Revealed(b)
  {
    if b == [] {
      assert a + b == a;
    } else {
      var n := |b| - 1;
      assert (a + b)[..|a| + n] == a + b[..n];
      assert (a + b)[|a| + n] == b[n];
      RevealedConcat(a, b[..n]);
    }
  }

  /** The observer's state: the images it still observes and the images
      carrying the class `loaded`. */
  class ImageObserver {
    var observed: set<ImageId>
    var loaded: set<ImageId>

    /** No image is both still observed and already marked. */
    ghost predicate Valid()
      reads this
    {
      observed !! loaded
    }

    /** Starts observing every product-card image; none is loaded yet. */
    constructor (images: set<ImageId>)
      ensures Valid() && observed == images && loaded == {}
    {
      observed := images;
      loaded := {};
    }

    /** The observer callback: marks every intersecting target as loaded
        and unobserves it; other entries change nothing. */
    method OnIntersect(entries: seq<Entry>)
      requires Valid()
      modifies this
      ensures Valid()
      ensures loaded == old(loaded) + Revealed(entries)
      ensures observed == old(observed) - Revealed(entries)
    {
      var i := 0;
      while i < |entries|
        invariant 0 <= i <= |entries|
        invariant loaded == old(loaded) + Revealed(entries[..i])
        invariant observed == old(observed) - Revealed(entries[..i])
        invariant Valid()
      {
        var entry := entries[i];
        if entry.isIntersecting {
          loaded := loaded + {entry.target};
          observed := observed - {entry.target};
        }
        assert entries[..i + 1][..i] == entries[..i];
        i := i + 1;
      }
      assert entries[..|entries|] == entries;
    }
  }
}
