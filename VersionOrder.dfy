/**
 * The order `checkForUpdate` decides on parsed versions: the remote version is newer than the
 * local one when the first differing overlapping segment is larger remotely, or when every
 * overlapping segment is equal and the remote version has more segments (2.2 < 2.2.1).
 */
module VersionOrder {

  /** True when an update is needed, i.e. `remote` is strictly newer than `local`. */
  function Newer(local: seq<int>, remote: seq<int>): bool
  {
    if local == [] || remote == [] then |local| < |remote|
    else if local[0] != remote[0] then local[0] < remote[0]
    else Newer(local[1..], remote[1..])
  }

  /** The two versions agree on the first `i` segments and the remote one is larger at segment `i`. */
  ghost predicate LargerAt(local: seq<int>, remote: seq<int>, i: int)
  {
    0 <= i < |local| && i < |remote| && local[..i] == remote[..i] && local[i] < remote[i]
  }

  /** Every segment of `local` is equal to the corresponding one of `remote`, which has more segments. */
  ghost predicate ProperPrefix(local: seq<int>, remote: seq<int>)
  {
    |local| < |remote| && local == remote[..|local|]
  }

  /** The recursive definition agrees with the textbook statement of the order, in both directions. */
  lemma {:induction false} NewerCharacterization(local: seq<int>, remote: seq<int>)
    ensures Newer(local, remote) <==> (exists i :: LargerAt(local, remote, i)) || ProperPrefix(local, remote)
  {
    if local == [] || remote == [] {
    } else if local[0] != remote[0] {
      if local[0] < remote[0] {
        assert LargerAt(local, remote, 0);
      } else {
        forall i | 0 < i < |local| && i < |remote|
          ensures local[..i] != remote[..i]
        {
          assert local[..i][0] == local[0] && remote[..i][0] == remote[0];
        }
        if |local| < |remote| {
          assert remote[..|local|][0] == remote[0];
        }
      }
    } else {
      var l, r := local[1..], remote[1..];
      NewerCharacterization(l, r);
      if exists i :: LargerAt(l, r, i) {
        var i :| LargerAt(l, r, i);
        assert local[..i + 1] == [local[0]] + l[..i];
        assert remote[..i + 1] == [remote[0]] + r[..i];
        assert LargerAt(local, remote, i + 1);
      }
      if exists i :: LargerAt(local, remote, i) {
        var i :| LargerAt(local, remote, i);
        assert i > 0;
        assert local[..i][1..] == l[..i - 1];
        assert remote[..i][1..] == r[..i - 1];
        assert LargerAt(l, r, i - 1);
      }
      if ProperPrefix(l, r) {
        assert local == [local[0]] + l;
        assert remote[..|local|] == [remote[0]] + r[..|l|];
      }
      if ProperPrefix(local, remote) {
        assert l == local[1..] == remote[..|local|][1..];
        assert ProperPrefix(l, r);
      }
    }
  }

  /** A version is never an update over itself. */
  lemma {:induction false} NewerIrreflexive(v: seq<int>)
    ensures !Newer(v, v)
  {
    if v != [] {
      NewerIrreflexive(v[1..]);
    }
  }

  /** If `b` is an update over `a`, then `a` is not an update over `b`. */
  lemma {:induction false} NewerAsymmetric(a: seq<int>, b: seq<int>)
    ensures Newer(a, b) ==> !Newer(b, a)
  {
    if a != [] && b != [] && a[0] == b[0] {
      NewerAsymmetric(a[1..], b[1..]);
    }
  }

  lemma {:induction false} NewerTransitive(a: seq<int>, b: seq<int>, c: seq<int>)
    requires Newer(a, b) && Newer(b, c)
    ensures Newer(a, c)
  {
    if a != [] && b != [] && c != [] && a[0] == b[0] == c[0] {
      NewerTransitive(a[1..], b[1..], c[1..]);
    }
  }

  /** Two different versions are always ordered one way or the other. */
  lemma {:induction false} NewerTotal(a: seq<int>, b: seq<int>)
    ensures a == b || Newer(a, b) || Newer(b, a)
  {
    if a != [] && b != [] && a[0] == b[0] {
      NewerTotal(a[1..], b[1..]);
      if a[1..] == b[1..] {
        assert a == [a[0]] + a[1..];
        assert b == [b[0]] + b[1..];
      }
    }
  }
}
