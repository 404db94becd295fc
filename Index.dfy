/** The prefix index behind `lookup` (src/lib.rs:224-237). The radix trie is modelled by the map
    it stores and the order it iterates in: ascending order of the keys, which for Rust strings
    (byte-wise comparison of UTF-8) is the lexicographic order of code points. */
module Index {

  /** The number of bytes the UTF-8 encoding of c takes. */
  function Utf8Width(c: char): nat {
    if c as int < 0x80 then 1
    else if c as int < 0x800 then 2
    else if c as int < 0x10000 then 3
    else 4
  }

  /** `str::len()`: the length of the UTF-8 encoding in bytes, not the number of characters. */
  function Utf8Len(s: string): nat
    decreases |s|
  {
    if s == [] then 0 else Utf8Width(s[0]) + Utf8Len(s[1..])
  }

  /** A text has at least as many bytes as characters, and at most four bytes per character. */
  lemma {:induction false} Utf8LenBounds(s: string)
    ensures |s| <= Utf8Len(s) <= 4 * |s|
    decreases |s|
  {
    if s != [] {
      Utf8LenBounds(s[1..]);
    }
  }

  /** Because the guard counts bytes, a two-letter Polish prefix such as "żó" already passes it. */
  lemma ShortPolishPrefixPasses()
    ensures |"żó"| == 2 && Utf8Len("żó") == 4
  {
    assert "żó"[1..] == "ó";
    assert "ó"[1..] == "";
  }

  /** The strict lexicographic order of code points. */
  predicate Less(a: string, b: string)
    decreases |a|
  {
    |b| > 0 && (|a| == 0 || a[0] < b[0] || (a[0] == b[0] && Less(a[1..], b[1..])))
  }

  lemma {:induction false} LessIrreflexive(a: string)
    ensures !Less(a, a)
    decreases |a|
  {
    if |a| > 0 {
      LessIrreflexive(a[1..]);
    }
  }

  lemma {:induction false} LessTransitive(a: string, b: string, c: string)
    requires Less(a, b) && Less(b, c)
    ensures Less(a, c)
    decreases |a|
  {
    if |a| > 0 && a[0] == b[0] && b[0] == c[0] {
      LessTransitive(a[1..], b[1..], c[1..]);
    }
  }

  lemma {:induction false} LessTotal(a: string, b: string)
    requires a != b
    ensures Less(a, b) || Less(b, a)
    decreases |a|
  {
    if |a| > 0 && |b| > 0 && a[0] == b[0] {
      assert a == [a[0]] + a[1..] && b == [b[0]] + b[1..];
      LessTotal(a[1..], b[1..]);
    }
  }

  /** Entries in strictly ascending key order. */
  predicate StrictlySorted(es: seq<(string, string)>) {
    forall i, j :: 0 <= i < j < |es| ==> Less(es[i].0, es[j].0)
  }

  /** `es` lists exactly the entries of m whose key starts with p, in ascending key order. */
  predicate IsPrefixListing(m: map<string, string>, p: string, es: seq<(string, string)>) {
    && StrictlySorted(es)
    && (forall i :: 0 <= i < |es| ==> es[i].0 in m && m[es[i].0] == es[i].1 && p <= es[i].0)
    && (forall k :: k in m && p <= k ==> exists i :: 0 <= i < |es| && es[i].0 == k)
  }

  /** There is only one such listing: the result of a prefix query is determined by the map. */
  lemma PrefixListingUnique(m: map<string, string>, p: string, es1: seq<(string, string)>, es2: seq<(string, string)>)
    requires IsPrefixListing(m, p, es1) && IsPrefixListing(m, p, es2)
    ensures es1 == es2
  {
    forall x | x in es1 ensures x in es2 {
      var i :| 0 <= i < |es1| && es1[i] == x;
      var j :| 0 <= j < |es2| && es2[j].0 == x.0;
      assert es2[j] == x;
    }
    forall x | x in es2 ensures x in es1 {
      var j :| 0 <= j < |es2| && es2[j] == x;
      var i :| 0 <= i < |es1| && es1[i].0 == x.0;
      assert es1[i] == x;
    }
    SortedUnique(es1, es2);
  }

  lemma HeadIsMember<T>(xs: seq<T>)
    requires xs != []
    ensures xs[0] in xs
  {
  }

  /** Two strictly sorted sequences with the same elements are equal. */
  lemma {:induction false} SortedUnique(xs: seq<(string, string)>, ys: seq<(string, string)>)
    requires StrictlySorted(xs) && StrictlySorted(ys)
    requires forall x :: x in xs <==> x in ys
    ensures xs == ys
    decreases |xs|
  {
    if xs == [] || ys == [] {
      if xs != [] {
        HeadIsMember(xs);
        assert false;
      }
      if ys != [] {
        HeadIsMember(ys);
        assert false;
      }
    } else {
      assert xs[0] in ys && ys[0] in xs;
      assert xs[0] == ys[0] by {
        var j :| 0 <= j < |ys| && ys[j] == xs[0];
        var i :| 0 <= i < |xs| && xs[i] == ys[0];
        if j > 0 && i > 0 {
          assert Less(ys[0].0, ys[j].0) && Less(xs[0].0, xs[i].0);
          LessTransitive(xs[0].0, ys[0].0, xs[0].0);
          LessIrreflexive(xs[0].0);
        }
      }
      forall x ensures x in xs[1..] <==> x in ys[1..] {
        if x in xs[1..] {
          var i :| 0 <= i < |xs[1..]| && xs[1..][i] == x;
          assert Less(xs[0].0, xs[i + 1].0);
          if x == ys[0] { LessIrreflexive(x.0); }
          assert x in ys;
          var j :| 0 <= j < |ys| && ys[j] == x;
          assert j > 0 && ys[1..][j - 1] == x;
        }
        if x in ys[1..] {
          var j :| 0 <= j < |ys[1..]| && ys[1..][j] == x;
          assert Less(ys[0].0, ys[j + 1].0);
          if x == xs[0] { LessIrreflexive(x.0); }
          assert x in xs;
          var i :| 0 <= i < |xs| && xs[i] == x;
          assert i > 0 && xs[1..][i - 1] == x;
        }
      }
      SortedUnique(xs[1..], ys[1..]);
    }
  }

  /** Midway through the listing: es lists, in order, the entries under p that are no longer
      pending, and every pending key is under p and above all of them. */
  predicate PartialListing(m: map<string, string>, p: string, es: seq<(string, string)>, pending: set<string>) {
    && (forall k :: k in pending ==> k in m && p <= k)
    && StrictlySorted(es)
    && (forall i :: 0 <= i < |es| ==> es[i].0 in m && m[es[i].0] == es[i].1 && p <= es[i].0)
    && (forall i, k :: 0 <= i < |es| && k in pending ==> Less(es[i].0, k))
    && (forall k :: k in m && p <= k && k !in pending ==> exists i :: 0 <= i < |es| && es[i].0 == k)
  }

  /** Appending the least pending key keeps the listing partial, and a listing with nothing
      pending is complete. */
  lemma ListingStep(m: map<string, string>, p: string, es: seq<(string, string)>, pending: set<string>, k: string)
    requires PartialListing(m, p, es, pending)
    requires k in pending && forall j :: j in pending && j != k ==> Less(k, j)
    ensures PartialListing(m, p, es + [(k, m[k])], pending - {k})
  {
    var es' := es + [(k, m[k])];
    forall i, j | 0 <= i < j < |es'| ensures Less(es'[i].0, es'[j].0) {
      if j == |es| { assert es'[i] == es[i]; }
    }
    forall j | j in m && p <= j && j !in pending - {k}
      ensures exists i :: 0 <= i < |es'| && es'[i].0 == j
    {
      if j == k {
        assert es'[|es|].0 == j;
      } else {
        var i :| 0 <= i < |es| && es[i].0 == j;
        assert es'[i].0 == j;
      }
    }
  }

  lemma ListingStart(m: map<string, string>, p: string)
    ensures PartialListing(m, p, [], set k | k in m && p <= k)
  {
  }

  lemma ListingDone(m: map<string, string>, p: string, es: seq<(string, string)>)
    requires PartialListing(m, p, es, {})
    ensures IsPrefixListing(m, p, es)
  {
  }

  /** One step of the trie's iterator: the least key of a non-empty set of keys. */
  method Least(keys: set<string>) returns (m: string)
    requires keys != {}
    ensures m in keys && forall k :: k in keys && k != m ==> Less(m, k)
  {
    m :| m in keys;
    var rest := keys - {m};
    while rest != {}
      invariant m in keys && rest <= keys
      invariant forall k :: k in keys - rest && k != m ==> Less(m, k)
      decreases rest
    {
      var k :| k in rest;
      if k != m && !Less(m, k) {
        LessTotal(m, k);
        forall j | j in keys - rest && j != k ensures Less(k, j) {
          if j != m { LessTransitive(k, m, j); }
        }
        m := k;
      }
      rest := rest - {k};
    }
  }

  /** The lookup in the source's test: with the two articles of the sample dictionary, the
      prefix "żół" passes the guard and lists both, "żółwi" first. */
  lemma SampleLookup(a: string, b: string, es: seq<(string, string)>)
    requires IsPrefixListing(map["żółwi" := a, "żółwica" := b], "żół", es)
    ensures Utf8Len("żół") >= 3
    ensures es == [("żółwi", a), ("żółwica", b)]
  {
    var m := map["żółwi" := a, "żółwica" := b];
    var want := [("żółwi", a), ("żółwica", b)];
    assert "żółwi"[..5] == "żółwi" && "żółwica"[..5] == "żółwi";
    assert "żółwica"[5..] == "ca" && "żółwi"[5..] == [];
    SharedStem("żółwi", "", "ca");
    assert "żółwi" + "" == "żółwi" && "żółwi" + "ca" == "żółwica";
    assert StrictlySorted(want);
    assert "żół" <= "żółwi" && "żół" <= "żółwica";
    forall k | k in m && "żół" <= k ensures exists i :: 0 <= i < |want| && want[i].0 == k {
      if k == "żółwi" { assert want[0].0 == k; } else { assert want[1].0 == k; }
    }
    assert IsPrefixListing(m, "żół", want);
    PrefixListingUnique(m, "żół", es, want);
  }

  /** Keys that share a stem compare as what follows the stem. */
  lemma {:induction false} SharedStem(stem: string, x: string, y: string)
    requires Less(x, y)
    ensures Less(stem + x, stem + y)
    decreases |stem|
  {
    if stem != [] {
      assert (stem + x)[0] == stem[0] == (stem + y)[0];
      assert (stem + x)[1..] == stem[1..] + x && (stem + y)[1..] == stem[1..] + y;
      SharedStem(stem[1..], x, y);
    } else {
      assert stem + x == x && stem + y == y;
    }
  }
}
