/**
 * Roles and role grants of the identity (access-control) contract.
 *
 * A `Role` is ordered the way Rust's derived `Ord` orders an enum: first by
 * the position of its variant in the declaration, then by the payload of
 * `Custom`. A `RoleGrant` records when a role was granted and, optionally,
 * the ledger time from which it no longer holds.
 */
module Roles {

  /** Rust's `u32` and `u64`, as bounded naturals. */
  type U32 = x: nat | x < 0x1_0000_0000
  type U64 = x: nat | x < 0x1_0000_0000_0000_0000

  /** A contract address; its internal structure plays no part in the contract. */
  type Address = string

  datatype Option<+T> = None | Some(value: T)

  datatype Role = Admin | Hospital | Donor | Rider | BloodBank | Custom(id: U32)

  /** Position of the variant in the declaration of `Role`. */
  function Rank(r: Role): (k: nat)
    ensures k <= 5
    ensures k == 5 <==> r.Custom?
  {
    match r
    case Admin => 0
    case Hospital => 1
    case Donor => 2
    case Rider => 3
    case BloodBank => 4
    case Custom(_) => 5
  }

  /**
   * The derived strict order `a < b` on roles: a variant declared earlier is
   * smaller, and two `Custom` roles compare by their payload.
   */
  predicate Less(a: Role, b: Role)
    ensures Rank(a) < Rank(b) ==> Less(a, b)
    ensures Rank(b) < Rank(a) ==> !Less(a, b)
    ensures a.Custom? && b.Custom? ==> (Less(a, b) <==> a.id < b.id)
    ensures Rank(a) == Rank(b) && !a.Custom? ==> !Less(a, b)
  {
    Rank(a) < Rank(b) || (a.Custom? && b.Custom? && a.id < b.id)
  }

  /** `Less` is a strict total order: irreflexive, transitive and connected. */
  lemma LessIsStrictTotalOrder(a: Role, b: Role, c: Role)
    ensures !Less(a, a)
    ensures Less(a, b) ==> !Less(b, a)
    ensures Less(a, b) && Less(b, c) ==> Less(a, c)
    ensures a != b <==> (Less(a, b) || Less(b, a))
  {
  }

  datatype RoleGrant = RoleGrant(role: Role, grantedAt: U64, expiresAt: Option<U64>)

  /**
   * A grant has expired at ledger time `now` when it carries an expiry time
   * and `now` has reached it; a grant without an expiry time never expires.
   */
  predicate IsExpired(g: RoleGrant, now: U64)
    ensures g.expiresAt.None? ==> !IsExpired(g, now)
    ensures g.expiresAt.Some? ==> (IsExpired(g, now) <==> g.expiresAt.value <= now)
  {
    g.expiresAt.Some? && now >= g.expiresAt.value
  }
}
