// The objects that the parts of a larger object are made of.
module Footprints {
  /** The footprints keep to themselves: they lie within all, overlap neither one another nor the set own. */
  ghost predicate Separate<A(!new)>(feet: map<A, set<object>>, own: set<object>, all: set<object>) {
    && own <= all
    && (forall a :: a in feet ==> feet[a] <= all && feet[a] !! own)
    && (forall a, b :: a in feet && b in feet && a != b ==> feet[a] !! feet[b])
  }

  /** One footprint may be added, or take in objects that were not in use. */
  lemma SeparateGrows<A(!new)>(feet: map<A, set<object>>, own: set<object>, all: set<object>, a: A, grown: set<object>)
    requires Separate(feet, own, all)
    requires if a in feet then grown - feet[a] !! all else grown !! all
    ensures Separate(feet[a := grown], own, all + grown)
  {
    forall b | b in feet && b != a
      ensures grown !! feet[b]
    {
      if a in feet {
        assert grown <= (grown - feet[a]) + feet[a];
      }
    }
    if a in feet {
      assert grown <= (grown - feet[a]) + feet[a];
    }
  }

  /** The set own may take in objects that were not in use. */
  lemma OwnGrows<A(!new)>(feet: map<A, set<object>>, own: set<object>, all: set<object>, grown: set<object>)
    requires Separate(feet, own, all) && grown - own !! all
    ensures Separate(feet, grown, all + grown)
  {
    forall a | a in feet
      ensures feet[a] !! grown
    {
      assert grown <= (grown - own) + own;
    }
  }
}
