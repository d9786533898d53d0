/**
 * The access-control contract of the identity module.
 *
 * Its persistent storage holds an optional administrator and, per address,
 * one list of role grants. The functions on maps below give the storage
 * that each entry point leaves behind; the lemmas state what the contract
 * promises about it; the class `AccessControlContract` runs the entry points
 * step by step on its own storage and is proved to end in exactly that
 * state.
 */
module AccessControl {
  import opened Roles
  import opened GrantLists

  /** The two panics of the contract; a panicking call changes no storage. */
  datatype Error = AlreadyInitialized | NotInitialized

  datatype Result<T> = Ok(value: T) | Err(error: Error)

  type Store = map<Address, seq<RoleGrant>>

  /** The list stored for `a`, or the empty list when the key is absent. */
  function ListOf(m: Store, a: Address): seq<RoleGrant>
  {
    if a in m then m[a] else []
  }

  /** Every stored list is non-empty and strictly sorted by role. */
  predicate WellFormed(m: Store)
  {
    forall a :: a in m ==> m[a] != [] && Sorted(m[a])
  }

  /** Stores `s` under `a`, deleting the key instead of storing an empty list. */
  function Put(m: Store, a: Address, s: seq<RoleGrant>): Store
  {
    if s == [] then m - {a} else m[a := s]
  }

  /** Storing a non-empty sorted list keeps the storage well formed. */
  lemma WellFormedUpdate(m: Store, a: Address, s: seq<RoleGrant>)
    requires WellFormed(m) && s != [] && Sorted(s)
    ensures WellFormed(m[a := s])
    ensures forall b :: b != a ==> ListOf(m[a := s], b) == ListOf(m, b)
  {
  }

  // ---------------------------------------------------------------------
  // Storage after each entry point
  // ---------------------------------------------------------------------

  /** Storage after `cleanup_expired_roles_internal(a)` at ledger time `now`. */
  function Cleaned(m: Store, a: Address, now: U64): Store
  {
    if a in m && CountExpired(m[a], now) > 0 then Put(m, a, Unexpired(m[a], now)) else m
  }

  /** The grant that `grant_role_with_expiry` creates at ledger time `now`. */
  function NewGrant(role: Role, expiresAt: Option<U64>, now: U64): RoleGrant
  {
    RoleGrant(role, now, expiresAt)
  }

  /** Storage after `grant_role_with_expiry(a, role, expiresAt)` at ledger time `now`. */
  function Granted(m: Store, a: Address, role: Role, expiresAt: Option<U64>, now: U64): Store
  {
    var kept := WithoutRole(Unexpired(ListOf(m, a), now), role);
    m[a := Inserted(kept, NewGrant(role, expiresAt, now))]
  }

  /** Storage after `revoke_role(a, role)`. */
  function Revoked(m: Store, a: Address, role: Role): Store
  {
    if a in m then Put(m, a, WithoutRole(m[a], role)) else m
  }

  // ---------------------------------------------------------------------
  // What the entry points promise
  // ---------------------------------------------------------------------

  /**
   * Cleanup keeps exactly the unexpired grants of `a`; the number removed
   * and the new length add up to the old length; nothing is written when
   * nothing expired (in particular when the key is absent); the key is
   * deleted when no grant survives; other addresses are untouched.
   */
  lemma CleanedProperties(m: Store, a: Address, now: U64)
    requires WellFormed(m)
    ensures WellFormed(Cleaned(m, a, now))
    ensures ListOf(Cleaned(m, a, now), a) == Unexpired(ListOf(m, a), now)
    ensures CountExpired(ListOf(m, a), now) + |ListOf(Cleaned(m, a, now), a)| == |ListOf(m, a)|
    ensures a !in m ==> CountExpired(ListOf(m, a), now) == 0
    ensures CountExpired(ListOf(m, a), now) == 0 ==> Cleaned(m, a, now) == m
    ensures a in m && Unexpired(m[a], now) == [] ==> a !in Cleaned(m, a, now)
    ensures forall b :: b != a ==> ListOf(Cleaned(m, a, now), b) == ListOf(m, b)
  {
    CleanupAccounts(ListOf(m, a), now);
    if a in m {
      UnexpiredSorted(m[a], now);
    }
  }

  /** Writing the entry of `a` after cleaning it up is the same as writing it directly. */
  lemma OverwriteAfterCleanup(m: Store, a: Address, now: U64, s: seq<RoleGrant>)
    ensures Cleaned(m, a, now)[a := s] == m[a := s]
  {
  }

  /**
   * After a grant the list of `a` is non-empty and strictly sorted, holds
   * the new grant exactly once and no other grant for `role`, holds no
   * other grant that had expired, and keeps every other unexpired grant.
   * Other addresses are untouched.
   */
  lemma GrantedProperties(m: Store, a: Address, role: Role, expiresAt: Option<U64>, now: U64)
    requires WellFormed(m)
    ensures WellFormed(Granted(m, a, role, expiresAt, now))
    ensures var t := ListOf(Granted(m, a, role, expiresAt, now), a);
      var g := NewGrant(role, expiresAt, now);
      && a in Granted(m, a, role, expiresAt, now)
      && multiset(t)[g] == 1
      && (forall x :: x in t && x.role == role ==> x == g)
      && (forall x :: x in t && x != g ==> x in ListOf(m, a) && !IsExpired(x, now))
      && (forall x :: x in ListOf(m, a) && x.role != role && !IsExpired(x, now) ==> x in t)
    ensures forall b :: b != a ==> ListOf(Granted(m, a, role, expiresAt, now), b) == ListOf(m, b)
  {
    var g := NewGrant(role, expiresAt, now);
    var t := Inserted(WithoutRole(Unexpired(ListOf(m, a), now), role), g);
    RegrantedSorted(ListOf(m, a), g, now);
    RegrantedMembers(ListOf(m, a), g, now);
    assert Granted(m, a, role, expiresAt, now) == m[a := t];
    WellFormedUpdate(m, a, t);
  }

  /**
   * After a revocation `a` holds no grant for `role` and keeps every other
   * grant, expired or not; a list left empty is deleted rather than stored;
   * an absent key stays absent. Other addresses are untouched.
   */
  lemma RevokedProperties(m: Store, a: Address, role: Role)
    requires WellFormed(m)
    ensures WellFormed(Revoked(m, a, role))
    ensures a !in m ==> Revoked(m, a, role) == m
    ensures LacksRole(ListOf(Revoked(m, a, role), a), role)
    ensures forall x :: x in ListOf(Revoked(m, a, role), a) <==> x in ListOf(m, a) && x.role != role
    ensures forall b :: b != a ==> ListOf(Revoked(m, a, role), b) == ListOf(m, b)
  {
    WithoutRoleMembers(ListOf(m, a), role);
    if a in m {
      WithoutRoleSorted(m[a], role);
    }
  }

  /** `s` holds a grant for `role` that has not expired at `now`. */
  predicate HoldsUnexpired(s: seq<RoleGrant>, role: Role, now: U64)
  {
    exists g :: g in s && g.role == role && !IsExpired(g, now)
  }

  /**
   * Right after a grant, at the same ledger time, the address holds the
   * role exactly when the new grant's own expiry time is still ahead.
   */
  lemma HoldsAfterGrant(m: Store, a: Address, role: Role, expiresAt: Option<U64>, now: U64)
    requires WellFormed(m)
    ensures HoldsUnexpired(ListOf(Granted(m, a, role, expiresAt, now), a), role, now)
        <==> (expiresAt.None? || now < expiresAt.value)
  {
    GrantedProperties(m, a, role, expiresAt, now);
    var g := NewGrant(role, expiresAt, now);
    assert g in multiset(ListOf(Granted(m, a, role, expiresAt, now), a));
  }

  /** After a revocation the address does not hold the role at any time. */
  lemma LacksAfterRevoke(m: Store, a: Address, role: Role, now: U64)
    requires WellFormed(m)
    ensures !HoldsUnexpired(ListOf(Revoked(m, a, role), a), role, now)
  {
    RevokedProperties(m, a, role);
  }

  /**
   * Granting the same role with the same expiry twice at the same ledger
   * time stores the same list as granting it once: the second call replaces
   * the first grant instead of adding a duplicate.
   */
  lemma GrantIsIdempotent(m: Store, a: Address, role: Role, expiresAt: Option<U64>, now: U64)
    requires WellFormed(m)
    ensures Granted(Granted(m, a, role, expiresAt, now), a, role, expiresAt, now)
         == Granted(m, a, role, expiresAt, now)
  {
    var u := Unexpired(ListOf(m, a), now);
    UnexpiredMembers(ListOf(m, a), now);
    WithoutRoleMembers(u, role);
    ReinsertIsIdempotent(WithoutRole(u, role), NewGrant(role, expiresAt, now), now);
  }

  // ---------------------------------------------------------------------
  // The contract
  // ---------------------------------------------------------------------

  class AccessControlContract {
    /** `DataKey::Admin`. */
    var admin: Option<Address>
    /** `DataKey::AddressRoles(address)` for every address that has an entry. */
    var store: Store

    ghost predicate Valid()
      reads this
    {
      WellFormed(store)
    }

    /** A freshly deployed contract: no administrator, no entries. */
    constructor ()
      ensures Valid()
      ensures admin == None && store == map[]
    {
      admin := None;
      store := map[];
    }

    /** `initialize`: sets the administrator once; a second call panics. */
    method Initialize(newAdmin: Address) returns (o: Result<()>)
      requires Valid()
      modifies this
      ensures Valid()
      ensures old(admin).Some? ==> o == Err(AlreadyInitialized) && admin == old(admin)
      ensures old(admin).None? ==> o == Ok(()) && admin == Some(newAdmin)
      ensures store == old(store)
    {
      if admin.Some? {
        return Err(AlreadyInitialized);
      }
      admin := Some(newAdmin);
      o := Ok(());
    }

    /** `cleanup_expired_roles_internal`: drops the grants of `address` that expired at `now`. */
    method CleanupExpiredRolesInternal(address: Address, now: U64) returns (removed: nat)
      requires Valid()
      modifies this
      ensures Valid()
      ensures removed == CountExpired(ListOf(old(store), address), now)
      ensures store == Cleaned(old(store), address, now)
      ensures admin == old(admin)
    {
      if address !in store {
        return 0;
      }
      var roles := store[address];
      var newRoles := [];
      var removedCount := 0;
      for i := 0 to |roles|
        invariant store == old(store) && admin == old(admin)
        invariant newRoles == Unexpired(roles[..i], now)
        invariant removedCount == CountExpired(roles[..i], now)
      {
        assert roles[..i + 1][..i] == roles[..i];
        var grant := roles[i];
        var isExpired := match grant.expiresAt
          case Some(expiresAt) => now >= expiresAt
          case None => false;
        if isExpired {
          removedCount := removedCount + 1;
        } else {
          newRoles := newRoles + [grant];
        }
      }
      assert roles[..|roles|] == roles;
      CleanupAccounts(roles, now);
      UnexpiredSorted(roles, now);
      if removedCount > 0 {
        if newRoles == [] {
          store := store - {address};
        } else {
          store := store[address := newRoles];
        }
      }
      removed := removedCount;
    }

    /** `cleanup_expired_roles`: the administrator's entry point to the cleanup. */
    method CleanupExpiredRoles(address: Address, now: U64) returns (r: Result<nat>)
      requires Valid()
      modifies this
      ensures Valid()
      ensures old(admin).None? ==> r == Err(NotInitialized) && store == old(store)
      ensures old(admin).Some? ==>
        && r == Ok(CountExpired(ListOf(old(store), address), now))
        && store == Cleaned(old(store), address, now)
      ensures admin == old(admin)
    {
      if admin.None? {
        return Err(NotInitialized);
      }
      var removed := CleanupExpiredRolesInternal(address, now);
      r := Ok(removed);
    }

    /**
     * `grant_role_with_expiry`: cleans up `address`, drops its grant for
     * `role` if any and inserts the new grant in role order.
     */
    method GrantRoleWithExpiry(address: Address, role: Role, expiresAt: Option<U64>, now: U64)
      returns (o: Result<()>)
      requires Valid()
      modifies this
      ensures Valid()
      ensures old(admin).None? ==> o == Err(NotInitialized) && store == old(store)
      ensures old(admin).Some? ==> o == Ok(()) && store == Granted(old(store), address, role, expiresAt, now)
      ensures admin == old(admin)
    {
      if admin.None? {
        return Err(NotInitialized);
      }
      ghost var before := store;
      CleanedProperties(before, address, now);
      GrantedProperties(before, address, role, expiresAt, now);
      var _ := CleanupExpiredRolesInternal(address, now);
      var roles := if address in store then store[address] else [];
      assert roles == Unexpired(ListOf(before, address), now);
      var newGrant := RoleGrant(role, now, expiresAt);
      roles := RemoveRoleFromVec(roles, role);
      roles := InsertSorted(roles, newGrant);
      OverwriteAfterCleanup(before, address, now, roles);
      store := store[address := roles];
      o := Ok(());
    }

    /** `revoke_role`: drops the grant of `address` for `role`; expired grants stay. */
    method RevokeRole(address: Address, role: Role) returns (o: Result<()>)
      requires Valid()
      modifies this
      ensures Valid()
      ensures old(admin).None? ==> o == Err(NotInitialized) && store == old(store)
      ensures old(admin).Some? ==> o == Ok(()) && store == Revoked(old(store), address, role)
      ensures admin == old(admin)
    {
      if admin.None? {
        return Err(NotInitialized);
      }
      RevokedProperties(store, address, role);
      if address in store {
        var roles := store[address];
        roles := RemoveRoleFromVec(roles, role);
        if roles == [] {
          store := store - {address};
        } else {
          store := store[address := roles];
        }
      }
      o := Ok(());
    }

    /**
     * `has_role`: true exactly when `address` holds an unexpired grant for
     * `role`; on the way it deletes all of the address's expired grants.
     */
    method HasRole(address: Address, role: Role, now: U64) returns (b: bool)
      requires Valid()
      modifies this
      ensures Valid()
      ensures b == HoldsUnexpired(ListOf(old(store), address), role, now)
      ensures store == Cleaned(old(store), address, now)
      ensures admin == old(admin)
    {
      ghost var before := ListOf(store, address);
      CleanedProperties(store, address, now);
      UnexpiredMembers(before, now);
      var _ := CleanupExpiredRolesInternal(address, now);
      ghost var cleaned := store;
      if address in store {
        var roles := store[address];
        for i := 0 to |roles|
          invariant store == cleaned && admin == old(admin)
          invariant forall j :: 0 <= j < i ==> roles[j].role != role
        {
          if roles[i].role == role {
            assert roles[i] in before;
            return true;
          }
        }
      }
      b := false;
    }

    /** `get_roles`: the stored list as it is, expired grants included. */
    method GetRoles(address: Address) returns (roles: seq<RoleGrant>)
      ensures address in store ==> roles == store[address]
      ensures address !in store ==> roles == []
    {
      roles := if address in store then store[address] else [];
    }
  }
}
