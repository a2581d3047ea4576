/** Shared vocabulary of the chat server and client: identifiers, Option, Result and filtering in order. */
module Base {

  /** A value that may be absent (JavaScript `null`/`undefined`). */
  datatype Option<+T> = None | Some(value: T)

  /** The outcome of an operation that may fail with a reason. */
  datatype Result<+T, +E> = Ok(value: T) | Err(error: E)

  /** Identifiers are opaque strings, compared exactly. */
  type UserId = string
  type RoomId = string
  type MessageId = string
  type SocketId = string

  /**
   * JavaScript truthiness of an optional string field of a request body:
   * an absent field and the empty string are both falsy.
   */
  predicate Truthy(s: Option<string>) {
    s.Some? && s.value != ""
  }

  /** The set of elements of a sequence (`new Set(array)`). */
  function Elements<T(!new)>(s: seq<T>): (r: set<T>)
    ensures forall x :: x in r <==> x in s
  {
    set x | x in s
  }

  function Min(a: int, b: int): int {
    if a <= b then a else b
  }

  // ---------------------------------------------------------------------
  // Filtering in order (Array.prototype.filter)
  // ---------------------------------------------------------------------

  /**
   * `a` can be obtained from `b` by dropping elements, the rest keeping
   * their relative order. Matching greedily from the front decides this.
   */
  ghost predicate SubsequenceOf<T>(a: seq<T>, b: seq<T>)
    decreases |b|
  {
    if a == [] then true
    else if b == [] then false
    else if a[0] == b[0] then SubsequenceOf(a[1..], b[1..])
    else SubsequenceOf(a, b[1..])
  }

  /** No two elements of `s` share a key. */
  predicate DistinctBy<T, K(==)>(s: seq<T>, key: T -> K) {
    forall i, j :: 0 <= i < j < |s| ==> key(s[i]) != key(s[j])
  }

  /** `s.filter(p)` */
  function Keep<T(==,!new)>(s: seq<T>, p: T -> bool): (r: seq<T>)
    ensures forall x :: x in r <==> x in s && p(x)
    ensures forall x :: multiset(r)[x] == if p(x) then multiset(s)[x] else 0
    ensures SubsequenceOf(r, s)
    ensures |r| <= |s|
    ensures (forall x :: x in s ==> p(x)) ==> r == s
  {
    if s == [] then []
    else
      var tail := Keep(s[1..], p);
      assert s == [s[0]] + s[1..];
      assert multiset(s) == multiset{s[0]} + multiset(s[1..]);
      if p(s[0]) then
        assert ([s[0]] + tail)[1..] == tail;
        [s[0]] + tail
      else
        assert tail != [] ==> tail[0] != s[0] by {
          if tail != [] {
            assert tail[0] in tail;
          }
        }
        tail
  }

  /** Filtering keeps keys distinct. */
  lemma {:induction false} KeepDistinctBy<T(!new), K>(s: seq<T>, p: T -> bool, key: T -> K)
    ensures DistinctBy(s, key) ==> DistinctBy(Keep(s, p), key)
  {
    if s != [] && DistinctBy(s, key) {
      KeepDistinctBy(s[1..], p, key);
      var tail := Keep(s[1..], p);
      if p(s[0]) {
        var r := [s[0]] + tail;
        assert r == Keep(s, p);
        forall i, j | 0 <= i < j < |r|
          ensures key(r[i]) != key(r[j])
        {
          if i == 0 {
            assert r[j] == tail[j - 1];
            assert tail[j - 1] in s[1..];
            var k :| 0 <= k < |s[1..]| && s[1..][k] == tail[j - 1];
            assert s[k + 1] == r[j];
          }
        }
      }
    }
  }
}
