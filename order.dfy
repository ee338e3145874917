/** Python's `<` on strings and on lists: lexicographic comparison, where a
    proper prefix comes first. The frontier entries of the route finder are
    ordered with it (see `AStar.EntryLess`). */
module Order {

  /** `less` never holds of an element and itself. */
  ghost predicate Irreflexive<T(!new)>(less: (T, T) -> bool) {
    forall x :: !less(x, x)
  }

  /** `less` is transitive. */
  ghost predicate Transitive<T(!new)>(less: (T, T) -> bool) {
    forall x, y, z :: less(x, y) && less(y, z) ==> less(x, z)
  }

  /** Of two different elements, one is below the other. */
  ghost predicate Total<T(!new)>(less: (T, T) -> bool) {
    forall x, y :: x != y ==> less(x, y) || less(y, x)
  }

  /** A strict total order. */
  ghost predicate StrictTotal<T(!new)>(less: (T, T) -> bool) {
    Irreflexive(less) && Transitive(less) && Total(less)
  }

  /** The lexicographic extension of `less` to sequences: the first position
      where `a` and `b` differ decides; if there is none, the shorter comes first. */
  predicate LexLess<T(==)>(less: (T, T) -> bool, a: seq<T>, b: seq<T>) {
    |b| > 0 && (|a| == 0 || less(a[0], b[0]) || (a[0] == b[0] && LexLess(less, a[1..], b[1..])))
  }

  /** Python's `<` on characters: by code point. */
  predicate CharLess(x: char, y: char) {
    x < y
  }

  /** Python's `<` on `str`. */
  predicate StrLess(a: string, b: string) {
    LexLess(CharLess, a, b)
  }

  /** Python's `<` on a `list` of `str`. */
  predicate ListLess(a: seq<string>, b: seq<string>) {
    LexLess(StrLess, a, b)
  }

  /** No sequence is below itself. */
  lemma {:induction false} LexIrreflexive<T(!new)>(less: (T, T) -> bool, a: seq<T>)
    requires Irreflexive(less)
    ensures !LexLess(less, a, a)
  {
    if |a| > 0 {
      LexIrreflexive(less, a[1..]);
    }
  }

  /** The lexicographic extension of a strict order is transitive. */
  lemma {:induction false} LexTransitive<T(!new)>(less: (T, T) -> bool, a: seq<T>, b: seq<T>, c: seq<T>)
    requires Irreflexive(less) && Transitive(less)
    requires LexLess(less, a, b) && LexLess(less, b, c)
    ensures LexLess(less, a, c)
  {
    if |a| > 0 && a[0] == b[0] && b[0] == c[0] {
      LexTransitive(less, a[1..], b[1..], c[1..]);
    }
  }

  /** Of two different sequences, one is below the other. */
  lemma {:induction false} LexTotal<T(!new)>(less: (T, T) -> bool, a: seq<T>, b: seq<T>)
    requires Total(less)
    requires a != b
    ensures LexLess(less, a, b) || LexLess(less, b, a)
  {
    if |a| > 0 && |b| > 0 && a[0] == b[0] {
      assert a == [a[0]] + a[1..] && b == [b[0]] + b[1..];
      LexTotal(less, a[1..], b[1..]);
    }
  }

  /** Python's `<` on `str` is a strict total order. */
  lemma StrLessStrictTotal()
    ensures StrictTotal(StrLess)
  {
    assert StrictTotal(CharLess);
    forall a: string ensures !StrLess(a, a) {
      LexIrreflexive(CharLess, a);
    }
    forall a: string, b: string, c: string | StrLess(a, b) && StrLess(b, c) ensures StrLess(a, c) {
      LexTransitive(CharLess, a, b, c);
    }
    forall a: string, b: string | a != b ensures StrLess(a, b) || StrLess(b, a) {
      LexTotal(CharLess, a, b);
    }
  }

  /** Python's `<` on lists of `str` is a strict total order. */
  lemma ListLessStrictTotal()
    ensures StrictTotal(ListLess)
  {
    StrLessStrictTotal();
    forall a: seq<string> ensures !ListLess(a, a) {
      LexIrreflexive(StrLess, a);
    }
    forall a: seq<string>, b: seq<string>, c: seq<string> | ListLess(a, b) && ListLess(b, c)
      ensures ListLess(a, c)
    {
      LexTransitive(StrLess, a, b, c);
    }
    forall a: seq<string>, b: seq<string> | a != b ensures ListLess(a, b) || ListLess(b, a) {
      LexTotal(StrLess, a, b);
    }
  }
}
