/** The order of byte strings: what `Ord` means for Rust slices, arrays and text. */
module Lexicographic {
  import opened ByteCodec

  predicate Le(a: bytes, b: bytes) {
    if a == [] then true
    else if b == [] then false
    else a[0] < b[0] || (a[0] == b[0] && Le(a[1..], b[1..]))
  }

  predicate Lt(a: bytes, b: bytes) {
    Le(a, b) && a != b
  }

  lemma {:induction false} LeTotal(a: bytes, b: bytes)
    ensures Le(a, b) || Le(b, a)
  {
    if a != [] && b != [] {
      LeTotal(a[1..], b[1..]);
    }
  }

  lemma {:induction false} LeAntisymmetric(a: bytes, b: bytes)
    requires Le(a, b) && Le(b, a)
    ensures a == b
  {
    if a != [] && b != [] {
      LeAntisymmetric(a[1..], b[1..]);
      assert a == [a[0]] + a[1..] && b == [b[0]] + b[1..];
    }
  }

  lemma {:induction false} LeTransitive(a: bytes, b: bytes, c: bytes)
    requires Le(a, b) && Le(b, c)
    ensures Le(a, c)
  {
    if a != [] && b != [] && c != [] && a[0] == b[0] == c[0] {
      LeTransitive(a[1..], b[1..], c[1..]);
    }
  }

  lemma {:induction false} LtTransitive(a: bytes, b: bytes, c: bytes)
    requires Lt(a, b) && Lt(b, c)
    ensures Lt(a, c)
  {
    LeTransitive(a, b, c);
    if a == c {
      LeAntisymmetric(a, b);
    }
  }

  /** Before the first k bytes the two agree, and there the one ends or has the smaller byte. */
  ghost predicate DecidedAt(a: bytes, b: bytes, k: nat) {
    k <= |a| && k < |b| && a[..k] == b[..k] && (k == |a| || a[k] < b[k])
  }

  /** What the order means: a proper prefix comes first, and else the first byte in which the two differ decides. */
  lemma {:induction false} LtExactly(a: bytes, b: bytes)
    ensures Lt(a, b) <==> exists k :: 0 <= k && DecidedAt(a, b, k)
  {
    if a == [] {
      assert b != [] ==> DecidedAt(a, b, 0);
    } else if b != [] {
      var u, v := a[1..], b[1..];
      assert a == [a[0]] + u && b == [b[0]] + v;
      LtExactly(u, v);
      if a[0] < b[0] {
        assert DecidedAt(a, b, 0);
      } else if a[0] == b[0] {
        if Lt(u, v) {
          var k :| 0 <= k && DecidedAt(u, v, k);
          assert a[..k + 1] == [a[0]] + u[..k] && b[..k + 1] == [b[0]] + v[..k];
          assert DecidedAt(a, b, k + 1);
        }
        forall k | 0 <= k && DecidedAt(a, b, k) ensures Lt(u, v) {
          assert k > 0 && a[..k][1..] == u[..k - 1] && b[..k][1..] == v[..k - 1];
          assert DecidedAt(u, v, k - 1);
        }
      } else {
        forall k | 0 <= k ensures !DecidedAt(a, b, k) {
          if k > 0 && k <= |a| && k < |b| {
            assert a[..k][0] == a[0] && b[..k][0] == b[0];
          }
        }
      }
    }
  }
}
