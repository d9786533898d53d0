/**
 * The per-address list of role grants and the two list helpers of the
 * access-control contract: `insert_sorted` and `remove_role_from_vec`, plus
 * the expiry filter that `cleanup_expired_roles_internal` applies.
 *
 * Each helper is specified by a function over sequences; the helpers
 * themselves build their result with a loop that appends to a fresh list,
 * as the contract does, and are proved equal to that function.
 */
module GrantLists {
  import opened Roles

  /** The stored-list invariant: strictly increasing by role. */
  predicate Sorted(s: seq<RoleGrant>)
  {
    forall i, j :: 0 <= i < j < |s| ==> Less(s[i].role, s[j].role)
  }

  /** No grant in `s` is for role `r`. */
  predicate LacksRole(s: seq<RoleGrant>, r: Role)
  {
    forall x :: x in s ==> x.role != r
  }

  /** A strictly sorted list holds at most one grant per role. */
  lemma SortedRolesAreDistinct(s: seq<RoleGrant>, i: nat, j: nat)
    requires Sorted(s)
    requires i < |s| && j < |s| && i != j
    ensures s[i].role != s[j].role
  {
  }

  // ---------------------------------------------------------------------
  // insert_sorted
  // ---------------------------------------------------------------------

  /** Index of the first grant whose role is strictly greater than `r`, or |s|. */
  function FirstGreater(s: seq<RoleGrant>, r: Role): (k: nat)
    ensures k <= |s|
    ensures forall j :: 0 <= j < k ==> !Less(r, s[j].role)
    ensures k < |s| ==> Less(r, s[k].role)
  {
    if s == [] then 0
    else if Less(r, s[0].role) then 0
    else 1 + FirstGreater(s[1..], r)
  }

  /**
   * `g` placed before the first grant with a strictly greater role, or at
   * the end when there is none.
   */
  function Inserted(s: seq<RoleGrant>, g: RoleGrant): seq<RoleGrant>
  {
    var k := FirstGreater(s, g.role);
    s[..k] + [g] + s[k..]
  }

  /**
   * Inserting a grant for a role the sorted list does not hold yields a
   * sorted list.
   */
  lemma InsertedSorted(s: seq<RoleGrant>, g: RoleGrant)
    requires Sorted(s)
    requires LacksRole(s, g.role)
    ensures Sorted(Inserted(s, g))
  {
    var k := FirstGreater(s, g.role);
    var t := Inserted(s, g);
    assert t == s[..k] + [g] + s[k..];
    assert s[..k] + s[k..] == s;
    forall i | 0 <= i < k
      ensures Less(s[i].role, g.role)
    {
      assert s[i] in s;
      LessIsStrictTotalOrder(s[i].role, g.role, g.role);
    }
    forall i | k < i < |s|
      ensures Less(g.role, s[i].role)
    {
      LessIsStrictTotalOrder(g.role, s[k].role, s[i].role);
    }
    forall i, j | 0 <= i < j < |t|
      ensures Less(t[i].role, t[j].role)
    {
      if j < k {
      } else if j == k {
      } else if i < k {
        LessIsStrictTotalOrder(t[i].role, g.role, t[j].role);
      } else if i == k {
      } else {
      }
    }
  }

  /**
   * For any list, the inserted list is one longer and is made of the old
   * grants and the new one, and nothing else.
   */
  lemma InsertedMembers(s: seq<RoleGrant>, g: RoleGrant)
    ensures |Inserted(s, g)| == |s| + 1
    ensures multiset(Inserted(s, g)) == multiset(s) + multiset{g}
    ensures forall x :: x in Inserted(s, g) <==> x in s || x == g
  {
    var k := FirstGreater(s, g.role);
    assert s[..k] + s[k..] == s;
  }

  /** `insert_sorted`: copies the list, emitting the new grant once, before the first greater role. */
  method InsertSorted(roles: seq<RoleGrant>, newGrant: RoleGrant) returns (r: seq<RoleGrant>)
    ensures r == Inserted(roles, newGrant)
  {
    ghost var k := FirstGreater(roles, newGrant.role);
    r := [];
    var inserted := false;
    for i := 0 to |roles|
      invariant inserted <==> k < i
      invariant !inserted ==> r == roles[..i]
      invariant inserted ==> r == roles[..k] + [newGrant] + roles[k..i]
    {
      if !inserted && Less(newGrant.role, roles[i].role) {
        r := r + [newGrant];
        inserted := true;
      }
      r := r + [roles[i]];
    }
    if !inserted {
      r := r + [newGrant];
    }
    assert roles[..|roles|] == roles && roles[k..|roles|] == roles[k..];
  }

  // ---------------------------------------------------------------------
  // remove_role_from_vec
  // ---------------------------------------------------------------------

  /** The grants of `s` whose role is not `r`, in their original order. */
  function WithoutRole(s: seq<RoleGrant>, r: Role): seq<RoleGrant>
  {
    if s == [] then []
    else
      var last := s[|s| - 1];
      WithoutRole(s[..|s| - 1], r) + (if last.role != r then [last] else [])
  }

  lemma {:induction false} WithoutRoleMembers(s: seq<RoleGrant>, r: Role)
    ensures forall x :: x in WithoutRole(s, r) <==> x in s && x.role != r
  {
    if s != [] {
      var p := s[..|s| - 1];
      WithoutRoleMembers(p, r);
      assert s == p + [s[|s| - 1]];
    }
  }

  lemma {:induction false} WithoutRoleSorted(s: seq<RoleGrant>, r: Role)
    requires Sorted(s)
    ensures Sorted(WithoutRole(s, r))
  {
    if s != [] {
      var p := s[..|s| - 1];
      var last := s[|s| - 1];
      WithoutRoleSorted(p, r);
      WithoutRoleMembers(p, r);
      var w := WithoutRole(p, r);
      forall i | 0 <= i < |w|
        ensures Less(w[i].role, last.role)
      {
        assert w[i] in p;
        var j :| 0 <= j < |p| && p[j] == w[i];
      }
    }
  }

  /** Removing a role that the list does not hold leaves it as it was. */
  lemma {:induction false} WithoutAbsentRole(s: seq<RoleGrant>, r: Role)
    requires LacksRole(s, r)
    ensures WithoutRole(s, r) == s
  {
    if s != [] {
      var p := s[..|s| - 1];
      assert s == p + [s[|s| - 1]];
      WithoutAbsentRole(p, r);
    }
  }

  /** `remove_role_from_vec`: copies every grant whose role differs from `role`. */
  method RemoveRoleFromVec(roles: seq<RoleGrant>, role: Role) returns (r: seq<RoleGrant>)
    ensures r == WithoutRole(roles, role)
  {
    r := [];
    for i := 0 to |roles|
      invariant r == WithoutRole(roles[..i], role)
    {
      assert roles[..i + 1][..i] == roles[..i];
      if roles[i].role != role {
        r := r + [roles[i]];
      }
    }
    assert roles[..|roles|] == roles;
  }

  // ---------------------------------------------------------------------
  // expiry filter of cleanup_expired_roles_internal
  // ---------------------------------------------------------------------

  /** The grants of `s` that have not expired at `now`, in their original order. */
  function Unexpired(s: seq<RoleGrant>, now: U64): seq<RoleGrant>
  {
    if s == [] then []
    else
      var last := s[|s| - 1];
      Unexpired(s[..|s| - 1], now) + (if IsExpired(last, now) then [] else [last])
  }

  /** The number of grants of `s` that have expired at `now`. */
  function CountExpired(s: seq<RoleGrant>, now: U64): nat
  {
    if s == [] then 0
    else CountExpired(s[..|s| - 1], now) + (if IsExpired(s[|s| - 1], now) then 1 else 0)
  }

  lemma {:induction false} UnexpiredMembers(s: seq<RoleGrant>, now: U64)
    ensures forall x :: x in Unexpired(s, now) <==> x in s && !IsExpired(x, now)
  {
    if s != [] {
      var p := s[..|s| - 1];
      UnexpiredMembers(p, now);
      assert s == p + [s[|s| - 1]];
    }
  }

  lemma {:induction false} UnexpiredSorted(s: seq<RoleGrant>, now: U64)
    requires Sorted(s)
    ensures Sorted(Unexpired(s, now))
  {
    if s != [] {
      var p := s[..|s| - 1];
      var last := s[|s| - 1];
      UnexpiredSorted(p, now);
      UnexpiredMembers(p, now);
      var w := Unexpired(p, now);
      forall i | 0 <= i < |w|
        ensures Less(w[i].role, last.role)
      {
        assert w[i] in p;
        var j :| 0 <= j < |p| && p[j] == w[i];
      }
    }
  }

  /**
   * The removed count and the kept list account for every grant, and the
   * count is zero exactly when nothing is filtered out.
   */
  lemma {:induction false} CleanupAccounts(s: seq<RoleGrant>, now: U64)
    ensures CountExpired(s, now) + |Unexpired(s, now)| == |s|
    ensures CountExpired(s, now) == 0 <==> Unexpired(s, now) == s
  {
    if s != [] {
      var p := s[..|s| - 1];
      CleanupAccounts(p, now);
      assert s == p + [s[|s| - 1]];
    }
  }

  /** Filtering a list none of whose grants has expired leaves it as it was. */
  lemma {:induction false} UnexpiredOfLive(s: seq<RoleGrant>, now: U64)
    requires forall x :: x in s ==> !IsExpired(x, now)
    ensures Unexpired(s, now) == s
  {
    if s != [] {
      var p := s[..|s| - 1];
      assert s == p + [s[|s| - 1]];
      UnexpiredOfLive(p, now);
    }
  }

  // ---------------------------------------------------------------------
  // Both filters work grant by grant
  // ---------------------------------------------------------------------

  lemma {:induction false} UnexpiredAppend(a: seq<RoleGrant>, b: seq<RoleGrant>, now: U64)
    ensures Unexpired(a + b, now) == Unexpired(a, now) + Unexpired(b, now)
  {
    if b == [] {
      assert a + b == a;
    } else {
      var p := b[..|b| - 1];
      assert (a + b)[..|a + b| - 1] == a + p;
      UnexpiredAppend(a, p, now);
    }
  }

  lemma {:induction false} WithoutRoleAppend(a: seq<RoleGrant>, b: seq<RoleGrant>, r: Role)
    ensures WithoutRole(a + b, r) == WithoutRole(a, r) + WithoutRole(b, r)
  {
    if b == [] {
      assert a + b == a;
    } else {
      var p := b[..|b| - 1];
      assert (a + b)[..|a + b| - 1] == a + p;
      WithoutRoleAppend(a, p, r);
    }
  }

  /** Filtering expired grants out of `a + [g] + b` touches only `g` when `a` and `b` are live. */
  lemma {:induction false} UnexpiredAround(a: seq<RoleGrant>, g: RoleGrant, b: seq<RoleGrant>, now: U64)
    requires forall x :: x in a ==> !IsExpired(x, now)
    requires forall x :: x in b ==> !IsExpired(x, now)
    ensures Unexpired(a + [g] + b, now) == if IsExpired(g, now) then a + b else a + [g] + b
  {
    var ag := a + [g];
    UnexpiredAppend(ag, b, now);
    UnexpiredOfLive(b, now);
    UnexpiredAppend(a, [g], now);
    UnexpiredOfLive(a, now);
    assert [g][..0] == [];
    assert Unexpired([g], now) == Unexpired([], now) + (if IsExpired(g, now) then [] else [g]);
    if IsExpired(g, now) {
      assert Unexpired(ag, now) == a;
    } else {
      assert Unexpired(ag, now) == ag;
    }
  }

  /** Removing the role of `g` from `a + [g] + b` removes only `g` when `a` and `b` lack that role. */
  lemma {:induction false} WithoutRoleAround(a: seq<RoleGrant>, g: RoleGrant, b: seq<RoleGrant>)
    requires LacksRole(a, g.role) && LacksRole(b, g.role)
    ensures WithoutRole(a + [g] + b, g.role) == a + b
  {
    var ag := a + [g];
    WithoutRoleAppend(ag, b, g.role);
    WithoutAbsentRole(b, g.role);
    WithoutRoleAppend(a, [g], g.role);
    WithoutAbsentRole(a, g.role);
    assert [g][..0] == [];
    assert WithoutRole([g], g.role) == WithoutRole([], g.role) + [];
    assert WithoutRole(ag, g.role) == a;
  }

  /**
   * Cleaning up, removing the role of `g` and inserting `g` again, applied to
   * a list that `g` was just inserted into, gives back that same list.
   */
  lemma {:induction false} ReinsertIsIdempotent(w: seq<RoleGrant>, g: RoleGrant, now: U64)
    requires forall x :: x in w ==> !IsExpired(x, now)
    requires LacksRole(w, g.role)
    ensures Inserted(WithoutRole(Unexpired(Inserted(w, g), now), g.role), g) == Inserted(w, g)
  {
    var k := FirstGreater(w, g.role);
    var a, b := w[..k], w[k..];
    assert a + b == w;
    assert forall x :: x in a ==> x in w;
    assert forall x :: x in b ==> x in w;
    assert Inserted(w, g) == a + [g] + b;
    UnexpiredAround(a, g, b, now);
    if IsExpired(g, now) {
      WithoutAbsentRole(w, g.role);
    } else {
      WithoutRoleAround(a, g, b);
    }
  }

  /**
   * The list a grant stores: expired grants dropped, the old grant for the
   * role removed, `g` inserted in role order. It is strictly sorted and
   * holds `g` exactly once.
   */
  lemma RegrantedSorted(s: seq<RoleGrant>, g: RoleGrant, now: U64)
    requires Sorted(s)
    ensures Sorted(Inserted(WithoutRole(Unexpired(s, now), g.role), g))
    ensures multiset(Inserted(WithoutRole(Unexpired(s, now), g.role), g))[g] == 1
  {
    var u := Unexpired(s, now);
    var w := WithoutRole(u, g.role);
    UnexpiredSorted(s, now);
    WithoutRoleSorted(u, g.role);
    WithoutRoleMembers(u, g.role);
    InsertedSorted(w, g);
    InsertedMembers(w, g);
    assert g !in w;
  }

  /**
   * Besides `g`, the list a grant stores holds exactly the grants of `s`
   * for other roles that have not expired.
   */
  lemma RegrantedMembers(s: seq<RoleGrant>, g: RoleGrant, now: U64)
    ensures var t := Inserted(WithoutRole(Unexpired(s, now), g.role), g);
      && g in t
      && (forall x :: x in t && x.role == g.role ==> x == g)
      && (forall x :: x in t && x != g <==> x in s && x.role != g.role && !IsExpired(x, now))
  {
    var u := Unexpired(s, now);
    var w := WithoutRole(u, g.role);
    UnexpiredMembers(s, now);
    WithoutRoleMembers(u, g.role);
    InsertedMembers(w, g);
  }
}
