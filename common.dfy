/** Small value types shared by the catalog model: an optional value, PHP string
    truthiness, SQL `LIKE '%t%'` matching and the string order used by `ORDER BY name`. */
module Common {

  datatype Option<+T> = None | Some(value: T) {
    function GetOr(default: T): T {
      if Some? then value else default
    }
  }

  /** PHP truthiness of a nullable string: null, "" and "0" are all falsy. */
  predicate Truthy(s: Option<string>) {
    s.Some? && s.value != "" && s.value != "0"
  }

  /** `t` occurs in `s` as a contiguous piece: what `s LIKE '%t%'` matches when `t`
      holds no wildcard characters. */
  predicate Contains(s: string, t: string) {
    exists i | 0 <= i <= |s| - |t| :: t <= s[i..]
  }

  lemma ContainsEmpty(s: string)
    ensures Contains(s, "")
  {
    assert "" <= s[0..];
  }

  /** `m` after writing the supplied entries of `p`: a present value overwrites,
      an explicit null clears, an absent key keeps what `m` had. */
  function Patch<K(!new), V>(m: map<K, V>, p: map<K, Option<V>>): (r: map<K, V>)
    ensures forall k :: k in p && p[k].Some? ==> k in r && r[k] == p[k].value
    ensures forall k :: k in p && p[k].None? ==> k !in r
    ensures forall k :: k !in p ==> (k in r <==> k in m) && (k in m ==> r[k] == m[k])
  {
    map k | k in m.Keys + p.Keys && !(k in p && p[k].None?) :: if k in p then p[k].value else m[k]
  }

  /** The set of elements of a sequence. */
  function SetOf<T(!new)>(s: seq<T>): (r: set<T>)
    ensures forall x :: x in r <==> x in s
  {
    set x | x in s
  }

  function Min(a: int, b: int): int {
    if a <= b then a else b
  }

  /** Lexicographic order on character codes, the order `ORDER BY name` gives
      under a binary collation. */
  predicate LexLeq(a: string, b: string)
    decreases |a|
  {
    |a| == 0 || (|b| > 0 && (a[0] < b[0] || (a[0] == b[0] && LexLeq(a[1..], b[1..]))))
  }

  lemma {:induction false} LexLeqTotal(a: string, b: string)
    ensures LexLeq(a, b) || LexLeq(b, a)
    decreases |a|
  {
    if |a| > 0 && |b| > 0 && a[0] == b[0] {
      LexLeqTotal(a[1..], b[1..]);
    }
  }

  lemma {:induction false} LexLeqTransitive(a: string, b: string, c: string)
    requires LexLeq(a, b) && LexLeq(b, c)
    ensures LexLeq(a, c)
    decreases |a|
  {
    if |a| > 0 && a[0] == b[0] && b[0] == c[0] {
      LexLeqTransitive(a[1..], b[1..], c[1..]);
    }
  }
}
