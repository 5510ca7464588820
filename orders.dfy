/**
 * The two orders the catalog lists in: `ORDER BY name ASC` on category names and
 * `ORDER BY id DESC` on product ids. Names compare character by character on their
 * code points, which is what a binary ("C") collation does.
 */
module Orders {

  /** `a` sorts at or before `b`: lexicographic order on code points. */
  predicate NameAtOrBefore(a: string, b: string): (r: bool)
    ensures a <= b ==> r
    ensures r && a != [] ==> b != [] && a[0] <= b[0]
    decreases |a|
  {
    a == [] || (b != [] && (a[0] < b[0] || (a[0] == b[0] && NameAtOrBefore(a[1..], b[1..]))))
  }

  lemma {:induction false} NameOrderReflexive(a: string)
    ensures NameAtOrBefore(a, a)
    decreases |a|
  {
    if a != [] {
      NameOrderReflexive(a[1..]);
    }
  }

  lemma {:induction false} NameOrderTotal(a: string, b: string)
    ensures NameAtOrBefore(a, b) || NameAtOrBefore(b, a)
    decreases |a|
  {
    if a != [] && b != [] && a[0] == b[0] {
      NameOrderTotal(a[1..], b[1..]);
    }
  }

  lemma {:induction false} NameOrderAntisymmetric(a: string, b: string)
    requires NameAtOrBefore(a, b) && NameAtOrBefore(b, a)
    ensures a == b
    decreases |a|
  {
    if a != [] {
      NameOrderAntisymmetric(a[1..], b[1..]);
      assert a == [a[0]] + a[1..] && b == [b[0]] + b[1..];
    }
  }

  lemma {:induction false} NameOrderTransitive(a: string, b: string, c: string)
    requires NameAtOrBefore(a, b) && NameAtOrBefore(b, c)
    ensures NameAtOrBefore(a, c)
    decreases |a|
  {
    if a != [] && a[0] == b[0] && b[0] == c[0] {
      NameOrderTransitive(a[1..], b[1..], c[1..]);
    }
  }

  /** Some element of a non-empty set. */
  ghost function Pick<K>(s: set<K>): (x: K)
    requires s != {}
    ensures x in s
  {
    var x :| x in s; x
  }

  /** Among finitely many keys, one whose name sorts first. */
  ghost function FirstByName<K>(names: map<K, string>, keys: set<K>): (k: K)
    requires keys != {} && keys <= names.Keys
    ensures k in keys && forall j :: j in keys ==> NameAtOrBefore(names[k], names[j])
    decreases keys
  {
    var x := Pick(keys);
    var rest := keys - {x};
    if rest == {} then
      assert keys == {x};
      NameOrderReflexive(names[x]);
      x
    else
      var k := FirstByName(names, rest);
      NameOrderTotal(names[x], names[k]);
      if NameAtOrBefore(names[x], names[k]) then
        assert forall j :: j in keys ==> NameAtOrBefore(names[x], names[j]) by {
          forall j | j in keys ensures NameAtOrBefore(names[x], names[j]) {
            if j == x {
              NameOrderReflexive(names[x]);
            } else {
              NameOrderTransitive(names[x], names[k], names[j]);
            }
          }
        }
        x
      else
        NameOrderReflexive(names[k]);
        k
  }

  /** The largest of a non-empty finite set of ids. */
  ghost function LargestId(ids: set<int>): (m: int)
    requires ids != {}
    ensures m in ids && forall j :: j in ids ==> j <= m
    decreases ids
  {
    var x := Pick(ids);
    var rest := ids - {x};
    if rest == {} then
      assert ids == {x};
      x
    else
      var m := LargestId(rest);
      assert forall j :: j in ids ==> j == x || j in rest;
      if x > m then x else m
  }
}
