/**
  The image map of `ImageLoader`: a `std::map<std::string, ImageData,
  NumericStringCompare>`, modelled as its in-order sequence of entries
  together with the comparator the map was built with.

  Lookup and insertion follow the map's own recipe: find the lower bound (the
  first key that is not less than the probe) and treat it as a hit when the
  probe is not less than that key either. While the keys are sorted and the
  comparator is transitive on them, this is what the balanced tree computes.
 */
module ImageStore {
  import opened Wrappers
  import opened Orders
  import opened Images

  datatype Entry = Entry(name: string, image: ImageData)

  /** The map's entries in iteration order. */
  type Store = seq<Entry>

  /** Keys in strictly increasing comparator order: the map's invariant. */
  ghost predicate Sorted(less: Less, s: Store) {
    forall i, j :: 0 <= i < j < |s| ==> less(s[i].name, s[j].name)
  }

  ghost function KeySet(s: Store): set<string> {
    set i | 0 <= i < |s| :: s[i].name
  }

  /** Index of the first key that does not order before `k`. */
  function LowerBound(less: Less, s: Store, k: string): (i: nat)
    ensures i <= |s|
    ensures forall j :: 0 <= j < i ==> less(s[j].name, k)
    ensures i < |s| ==> !less(s[i].name, k)
  {
    if |s| > 0 && less(s[0].name, k) then 1 + LowerBound(less, s[1..], k) else 0
  }

  predicate HitAt(less: Less, s: Store, k: string, i: nat) {
    i < |s| && !less(k, s[i].name)
  }

  /** `getImage`: the record stored under a key equivalent to `name`, or None (the null pointer). */
  function Find(less: Less, s: Store, name: string): (r: Option<ImageData>)
    ensures r.Some? ==> exists i :: 0 <= i < |s| && Equivalent(less, s[i].name, name) && s[i].image == r.value
  {
    var i := LowerBound(less, s, name);
    if HitAt(less, s, name, i) then Some(s[i].image) else None
  }

  /**
    `images[name] = img`: an entry with an equivalent key keeps its key and
    takes the new record; otherwise a new entry goes in at the lower bound.
   */
  function Assign(less: Less, s: Store, name: string, img: ImageData): (r: Store)
    ensures |r| == if Find(less, s, name).Some? then |s| else |s| + 1
    ensures KeySet(s) <= KeySet(r) <= KeySet(s) + {name}
  {
    var i := LowerBound(less, s, name);
    if HitAt(less, s, name, i) then
      var r := s[i := Entry(s[i].name, img)];
      assert KeySet(r) == KeySet(s) by {
        forall x | x in KeySet(s) ensures x in KeySet(r) {
          var j :| 0 <= j < |s| && s[j].name == x;
          assert r[j].name == x;
        }
      }
      r
    else
      var r := s[..i] + [Entry(name, img)] + s[i..];
      assert KeySet(r) == KeySet(s) + {name} by {
        forall x | x in KeySet(s) ensures x in KeySet(r) {
          var j :| 0 <= j < |s| && s[j].name == x;
          if j < i { assert r[j].name == x; } else { assert r[j + 1].name == x; }
        }
        assert r[i].name == name;
      }
      r
  }

  /** `getImageNames`: the keys in iteration order. */
  function Names(s: Store): (r: seq<string>)
    ensures |r| == |s|
    ensures forall i :: 0 <= i < |s| ==> r[i] == s[i].name
  {
    seq(|s|, i requires 0 <= i < |s| => s[i].name)
  }

  /** `getImageCount`: one per listed name. */
  function Count(s: Store): (n: nat)
    ensures n == |Names(s)|
  {
    |s|
  }

  /** `clearImages`: nothing is found afterwards and no name is listed. */
  function Clear(s: Store): (r: Store)
    ensures forall less, name :: Find(less, r, name) == None
    ensures Names(r) == [] && Count(r) == 0
  {
    []
  }

  // ---------------------------------------------------------------------------
  // Lookup after insertion

  /** A lower bound computed past a prefix whose keys all order before the probe. */
  lemma {:induction false} LowerBoundAfterPrefix(less: Less, a: Store, b: Store, k: string)
    requires forall j :: 0 <= j < |a| ==> less(a[j].name, k)
    ensures LowerBound(less, a + b, k) == |a| + LowerBound(less, b, k)
  {
    if |a| == 0 {
      assert a + b == b;
    } else {
      var ab := a + b;
      assert ab[0] == a[0];
      assert ab[1..] == a[1..] + b;
      LowerBoundAfterPrefix(less, a[1..], b, k);
    }
  }

  /** Looking up the key just assigned finds the record just assigned, whatever the store held. */
  lemma FindAfterAssign(less: Less, s: Store, k: string, img: ImageData)
    requires Irreflexive(less)
    ensures Find(less, Assign(less, s, k, img), k) == Some(img)
  {
    var i := LowerBound(less, s, k);
    var r := Assign(less, s, k, img);
    if HitAt(less, s, k, i) {
      assert r == s[..i] + r[i..];
      LowerBoundAfterPrefix(less, s[..i], r[i..], k);
      assert r[i..][0] == r[i];
    } else {
      assert !less(k, k);
      assert r == s[..i] + ([Entry(k, img)] + s[i..]);
      LowerBoundAfterPrefix(less, s[..i], [Entry(k, img)] + s[i..], k);
    }
  }

  /**
    In a sorted store whose keys (with the probe) keep the comparator
    transitive, lookup finds exactly the entry whose key is equivalent to the
    probe, and there is at most one such entry.
   */
  lemma FindExact(less: Less, s: Store, k: string)
    requires KeyOrder(less)
    requires Sorted(less, s)
    requires TransitiveOn(less, KeySet(s) + {k})
    ensures Find(less, s, k).Some? <==> exists i :: 0 <= i < |s| && Equivalent(less, s[i].name, k)
    ensures forall i :: 0 <= i < |s| && Equivalent(less, s[i].name, k) ==> Find(less, s, k) == Some(s[i].image)
  {
    var lb := LowerBound(less, s, k);
    if HitAt(less, s, k, lb) {
      assert Equivalent(less, k, s[lb].name);
      forall i | 0 <= i < |s| && Equivalent(less, s[i].name, k)
        ensures i == lb
      {
        assert Equivalent(less, s[i].name, s[lb].name);
      }
    } else {
      forall i | 0 <= i < |s|
        ensures !Equivalent(less, s[i].name, k)
      {
        if lb < i {
          assert s[lb].name in KeySet(s) && s[i].name in KeySet(s);
          assert less(k, s[lb].name);
        }
      }
    }
  }

  /** Two sorted stores whose entries equivalent to `q` are the same entries answer `q` alike. */
  lemma FindAgrees(less: Less, s: Store, r: Store, q: string)
    requires KeyOrder(less)
    requires Sorted(less, s) && Sorted(less, r)
    requires TransitiveOn(less, KeySet(s) + {q}) && TransitiveOn(less, KeySet(r) + {q})
    requires forall i :: 0 <= i < |s| && Equivalent(less, s[i].name, q) ==> s[i] in r
    requires forall j :: 0 <= j < |r| && Equivalent(less, r[j].name, q) ==> r[j] in s
    ensures Find(less, s, q) == Find(less, r, q)
  {
    FindExact(less, s, q);
    FindExact(less, r, q);
    if i :| 0 <= i < |s| && Equivalent(less, s[i].name, q) {
      assert s[i] in r;
      var j :| 0 <= j < |r| && r[j] == s[i];
      assert Find(less, r, q) == Some(r[j].image);
    }
  }

  /** Insertion at the lower bound keeps the keys sorted. */
  lemma AssignKeepsSorted(less: Less, s: Store, k: string, img: ImageData)
    requires KeyOrder(less)
    requires Sorted(less, s)
    requires TransitiveOn(less, KeySet(s) + {k})
    ensures Sorted(less, Assign(less, s, k, img))
  {
    var i := LowerBound(less, s, k);
    if !HitAt(less, s, k, i) {
      var r := Assign(less, s, k, img);
      assert r == s[..i] + [Entry(k, img)] + s[i..];
      forall a, b | 0 <= a < b < |r|
        ensures less(r[a].name, r[b].name)
      {
        if b == i {
          assert r[a] == s[a];
        } else if a == i {
          assert r[b] == s[b - 1];
          assert less(k, s[i].name);
          if b - 1 > i {
            assert s[i].name in KeySet(s) && s[b - 1].name in KeySet(s);
          }
        } else {
          var a' := if a < i then a else a - 1;
          var b' := if b < i then b else b - 1;
          assert r[a] == s[a'] && r[b] == s[b'];
        }
      }
    }
  }

  /**
    In a sorted store, assigning `k` changes exactly the lookups of keys
    equivalent to `k`: they now find the new record; every other lookup is as before.
   */
  lemma FindAfterAssignOther(less: Less, s: Store, k: string, img: ImageData, q: string)
    requires KeyOrder(less)
    requires Sorted(less, s)
    requires TransitiveOn(less, KeySet(s) + {k, q})
    ensures Find(less, Assign(less, s, k, img), q) == if Equivalent(less, k, q) then Some(img) else Find(less, s, q)
  {
    var r := Assign(less, s, k, img);
    TransitiveOnSubset(less, KeySet(s) + {k}, KeySet(s) + {k, q});
    TransitiveOnSubset(less, KeySet(s) + {q}, KeySet(s) + {k, q});
    TransitiveOnSubset(less, KeySet(r) + {q}, KeySet(s) + {k, q});
    AssignKeepsSorted(less, s, k, img);
    if Equivalent(less, k, q) {
      FindEquivalentAfterAssign(less, s, k, img, q);
    } else if HitAt(less, s, k, LowerBound(less, s, k)) {
      FindUnrelatedAfterOverwrite(less, s, k, img, q);
    } else {
      FindUnrelatedAfterInsert(less, s, k, img, q);
    }
  }

  lemma FindEquivalentAfterAssign(less: Less, s: Store, k: string, img: ImageData, q: string)
    requires KeyOrder(less)
    requires Sorted(less, Assign(less, s, k, img))
    requires TransitiveOn(less, KeySet(Assign(less, s, k, img)) + {q})
    requires Equivalent(less, k, q)
    ensures Find(less, Assign(less, s, k, img), q) == Some(img)
  {
    var r := Assign(less, s, k, img);
    var lb := LowerBound(less, s, k);
    assert r[lb].image == img && Equivalent(less, r[lb].name, k);
    FindExact(less, r, q);
    assert Equivalent(less, r[lb].name, q);
  }

  lemma FindUnrelatedAfterOverwrite(less: Less, s: Store, k: string, img: ImageData, q: string)
    requires KeyOrder(less)
    requires Sorted(less, s) && Sorted(less, Assign(less, s, k, img))
    requires TransitiveOn(less, KeySet(s) + {q}) && TransitiveOn(less, KeySet(Assign(less, s, k, img)) + {q})
    requires HitAt(less, s, k, LowerBound(less, s, k))
    requires !Equivalent(less, k, q)
    ensures Find(less, Assign(less, s, k, img), q) == Find(less, s, q)
  {
    var r := Assign(less, s, k, img);
    var lb := LowerBound(less, s, k);
    assert Equivalent(less, s[lb].name, k);
    forall i | 0 <= i < |s| && Equivalent(less, s[i].name, q)
      ensures s[i] in r
    {
      assert i != lb;
      assert r[i] == s[i];
    }
    forall j | 0 <= j < |r| && Equivalent(less, r[j].name, q)
      ensures r[j] in s
    {
      assert j != lb;
      assert r[j] == s[j];
    }
    FindAgrees(less, s, r, q);
  }

  lemma FindUnrelatedAfterInsert(less: Less, s: Store, k: string, img: ImageData, q: string)
    requires KeyOrder(less)
    requires Sorted(less, s) && Sorted(less, Assign(less, s, k, img))
    requires TransitiveOn(less, KeySet(s) + {q}) && TransitiveOn(less, KeySet(Assign(less, s, k, img)) + {q})
    requires !HitAt(less, s, k, LowerBound(less, s, k))
    requires !Equivalent(less, k, q)
    ensures Find(less, Assign(less, s, k, img), q) == Find(less, s, q)
  {
    var r := Assign(less, s, k, img);
    var lb := LowerBound(less, s, k);
    assert r == s[..lb] + [Entry(k, img)] + s[lb..];
    InsertedMembers(s, lb, Entry(k, img), r);
    forall j | 0 <= j < |r| && Equivalent(less, r[j].name, q)
      ensures r[j] in s
    {
      assert r[j] in r;
    }
    FindAgrees(less, s, r, q);
  }

  /** The entries of a sequence with one entry inserted: the old ones and the new one. */
  lemma InsertedMembers(s: Store, i: nat, e: Entry, r: Store)
    requires i <= |s| && r == s[..i] + [e] + s[i..]
    ensures forall x :: x in s ==> x in r
    ensures forall x :: x in r ==> x == e || x in s
  {
    assert s == s[..i] + s[i..];
  }

  /** `getImageNames` of a sorted store: increasing comparator order, so no key twice and no two equivalent keys. */
  lemma NamesOrderedAndDistinct(less: Less, s: Store)
    requires Irreflexive(less) && Asymmetric(less)
    requires Sorted(less, s)
    ensures |Names(s)| == Count(s)
    ensures forall i, j :: 0 <= i < j < |s| ==> less(Names(s)[i], Names(s)[j])
    ensures forall i, j :: 0 <= i < |s| && 0 <= j < |s| && i != j ==> !Equivalent(less, Names(s)[i], Names(s)[j])
    ensures forall i, j :: 0 <= i < |s| && 0 <= j < |s| && i != j ==> Names(s)[i] != Names(s)[j]
  {
    forall i, j | 0 <= i < |s| && 0 <= j < |s| && i != j
      ensures Names(s)[i] != Names(s)[j]
    {
      if i < j {
        assert less(s[i].name, s[j].name);
      } else {
        assert less(s[j].name, s[i].name);
      }
    }
  }

  /** Every record of the map holds exactly the bytes its dimensions call for. */
  ghost predicate AllWellShaped(s: Store) {
    forall i :: 0 <= i < |s| ==> WellShaped(s[i].image)
  }

  /** Assigning a well-shaped record keeps every record of the map well-shaped. */
  lemma AssignKeepsWellShaped(less: Less, s: Store, name: string, img: ImageData)
    requires AllWellShaped(s) && WellShaped(img)
    ensures AllWellShaped(Assign(less, s, name, img))
  {
    var i := LowerBound(less, s, name);
    var r := Assign(less, s, name, img);
    if !HitAt(less, s, name, i) {
      assert r == s[..i] + [Entry(name, img)] + s[i..];
      forall j | 0 <= j < |r| ensures WellShaped(r[j].image) {
        if j < i { assert r[j] == s[j]; }
        else if j > i { assert r[j] == s[j - 1]; }
      }
    }
  }

  /** A lookup in a map of well-shaped records finds a well-shaped record. */
  lemma FindWellShaped(less: Less, s: Store, name: string)
    requires AllWellShaped(s)
    ensures Find(less, s, name).Some? ==> WellShaped(Find(less, s, name).value)
  {
  }
}
