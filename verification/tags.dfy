/** Tag normalisation performed by `save_task` before every write: each tag is
    lower-cased, then the list is sorted ascending. */
module Tags {
  import opened Sorting

  /** Python's `str.lower` restricted to ASCII: 'A'..'Z' become 'a'..'z', all else is kept. */
  function LowerChar(c: char): char {
    if 'A' <= c <= 'Z' then (c as int + 32) as char else c
  }

  /** A character that `LowerChar` leaves alone. */
  predicate IsLowerChar(c: char) {
    !('A' <= c <= 'Z')
  }

  /** `tag.lower()`: each upper-case ASCII letter becomes the letter of the same place in
      the lower-case alphabet, and every other character is kept. */
  function Lower(tag: string): (r: string)
    ensures |r| == |tag|
    ensures forall i :: 0 <= i < |tag| && 'A' <= tag[i] <= 'Z' ==>
              r[i] == "abcdefghijklmnopqrstuvwxyz"[tag[i] as int - 'A' as int]
    ensures forall i :: 0 <= i < |tag| && !('A' <= tag[i] <= 'Z') ==> r[i] == tag[i]
    ensures IsLower(r)
    ensures IsLower(tag) ==> r == tag
  {
    seq(|tag|, i requires 0 <= i < |tag| => LowerChar(tag[i]))
  }

  /** A string with no upper-case ASCII letter. */
  predicate IsLower(tag: string) {
    forall i :: 0 <= i < |tag| ==> IsLowerChar(tag[i])
  }

  /** Every tag of the list is lower case. */
  predicate AllLower(tags: seq<string>) {
    forall i :: 0 <= i < |tags| ==> IsLower(tags[i])
  }

  /** The loop `task.tags[i] = tag.lower()` over every position of the list. */
  function LowerAll(tags: seq<string>): (r: seq<string>)
    ensures |r| == |tags|
    ensures forall i :: 0 <= i < |tags| ==> r[i] == Lower(tags[i])
    ensures AllLower(r)
    ensures AllLower(tags) ==> r == tags
  {
    seq(|tags|, i requires 0 <= i < |tags| => Lower(tags[i]))
  }

  /** Python's `a <= b` on strings: lexicographic by code point, a proper prefix first. */
  function StrLe(a: string, b: string): bool {
    if |a| == 0 then true
    else if |b| == 0 then false
    else if a[0] != b[0] then a[0] < b[0]
    else StrLe(a[1..], b[1..])
  }

  lemma {:induction false} StrLeTotal(a: string, b: string)
    ensures StrLe(a, b) || StrLe(b, a)
  {
    if |a| > 0 && |b| > 0 && a[0] == b[0] {
      StrLeTotal(a[1..], b[1..]);
    }
  }

  lemma {:induction false} StrLeTransitive(a: string, b: string, c: string)
    requires StrLe(a, b) && StrLe(b, c)
    ensures StrLe(a, c)
  {
    if |a| > 0 && |b| > 0 && |c| > 0 && a[0] == b[0] == c[0] {
      StrLeTransitive(a[1..], b[1..], c[1..]);
    }
  }

  lemma {:induction false} StrLeAntisymmetric(a: string, b: string)
    requires StrLe(a, b) && StrLe(b, a)
    ensures a == b
  {
    if |a| > 0 && |b| > 0 {
      StrLeAntisymmetric(a[1..], b[1..]);
      assert a == [a[0]] + a[1..] && b == [b[0]] + b[1..];
    }
  }

  /** The string order is a total order, so sorting by it has a unique outcome. */
  lemma StrLeIsTotalOrder()
    ensures TotalPreorder(StrLe)
    ensures Antisymmetric(StrLe)
  {
    forall a, b ensures StrLe(a, b) || StrLe(b, a) {
      StrLeTotal(a, b);
    }
    forall a, b, c | StrLe(a, b) && StrLe(b, c) ensures StrLe(a, c) {
      StrLeTransitive(a, b, c);
    }
    forall a, b | StrLe(a, b) && StrLe(b, a) ensures a == b {
      StrLeAntisymmetric(a, b);
    }
  }

  /** A tag list in the form `save_task` stores: all lower case and ascending. */
  predicate Normalized(tags: seq<string>) {
    AllLower(tags) && SortedBy(tags, StrLe)
  }

  /** Lower-case every tag, then sort ascending. */
  function Normalize(tags: seq<string>): (r: seq<string>)
    ensures Normalized(r)
    ensures multiset(r) == multiset(LowerAll(tags))
  {
    StrLeIsTotalOrder();
    var r := InsertionSort(LowerAll(tags), StrLe);
    assert AllLower(r) by {
      forall i | 0 <= i < |r| ensures IsLower(r[i]) {
        assert r[i] in multiset(LowerAll(tags));
      }
    }
    r
  }

  /** The normalised lists are exactly the fixed points of `Normalize`. */
  lemma NormalizeFixesNormalized(tags: seq<string>)
    ensures Normalize(tags) == tags <==> Normalized(tags)
  {
    if Normalized(tags) {
      StrLeIsTotalOrder();
      SortedUnique(Normalize(tags), tags, StrLe);
    }
  }

  /** Normalising twice is normalising once, so re-saving a stored task keeps its tags. */
  lemma NormalizeIdempotent(tags: seq<string>)
    ensures Normalize(Normalize(tags)) == Normalize(tags)
  {
    NormalizeFixesNormalized(Normalize(tags));
  }

  /** Two tag lists that differ only in letter case and order normalise to the same list. */
  lemma NormalizeIgnoresCaseAndOrder(a: seq<string>, b: seq<string>)
    requires multiset(LowerAll(a)) == multiset(LowerAll(b))
    ensures Normalize(a) == Normalize(b)
  {
    StrLeIsTotalOrder();
    SortedUnique(Normalize(a), Normalize(b), StrLe);
  }

  /** Normalising `["Foo", "asdf"]` gives `["asdf", "foo"]`. */
  lemma NormalizeExample()
    ensures Normalize(["Foo", "asdf"]) == ["asdf", "foo"]
  {
    assert Lower("Foo") == "foo" by {
      assert LowerChar('F') == 'f';
    }
    assert Lower("asdf") == "asdf" by {
      assert IsLower("asdf");
    }
    var lowered := LowerAll(["Foo", "asdf"]);
    assert lowered == ["foo", "asdf"];
    var sorted := ["asdf", "foo"];
    assert StrLe("asdf", "foo");
    assert SortedBy(sorted, StrLe);
    assert multiset(sorted) == multiset(lowered);
    StrLeIsTotalOrder();
    SortedUnique(Normalize(["Foo", "asdf"]), sorted, StrLe);
  }
}
