# Identity access-control contract, modelled in Dafny

This project models the role-based access-control contract of the LifeBank
Soroban identity module (`AccessControlContract`). The contract keeps two
kinds of persistent entry:

- the administrator address, set once by `initialize`;
- per address, one list of role grants `{ role, granted_at, expires_at }`.

Roles are `Admin`, `Hospital`, `Donor`, `Rider`, `BloodBank` and
`Custom(u32)`. They are ordered as Rust derives `Ord` for the enum: by
variant position first, then by the `Custom` payload. A grant has expired at
ledger time `now` exactly when it has an expiry time `t` and `now >= t`. A
grant without an expiry time never expires.

The model has three modules:

- `Roles` (`roles.dfy`): `Role`, its order `Less`, `RoleGrant` and the expiry
  rule `IsExpired`.
- `GrantLists` (`grant_lists.dfy`): the two list helpers `insert_sorted` and
  `remove_role_from_vec`, and the specification of the expiry filter used by
  the cleanup.
  - Each of the two helpers is a method with a loop that appends to a fresh
    list, as the contract does, proved equal to a specification function
    (`Inserted`, `WithoutRole`).
  - The expiry filter is specified by `Unexpired` and `CountExpired`. Its
    loop lives, as in the contract, inside the cleanup method
    `AccessControlContract.CleanupExpiredRolesInternal`, which is proved
    against these two functions.
  - Lemmas state sortedness, membership and counting facts about these
    functions.
- `AccessControl` (`access_control.dfy`): the contract.
  - Functions on maps (`Cleaned`, `Granted`, `Revoked`) give the storage
    that each entry point leaves behind.
  - Lemmas state what the contract promises about that storage.
  - The class `AccessControlContract` holds the storage as fields `admin`
    and `store`. Its methods run the entry points step by step and are
    proved to end in exactly that storage.

Its object invariant `Valid()` (the map predicate `WellFormed`) says that
every stored list is non-empty and strictly sorted by role. Strict
sortedness implies at most one grant per role. Every entry point preserves
the invariant.

The ledger timestamp is a parameter `now` of the entry points that read it.
A Soroban panic reverts every write of the invocation. The two panics
("Already initialized", "Not initialized") are therefore modelled as a
`Err` result with the storage unchanged.

## Model

| member | source | states |
|---|---|---|
| `Roles.Rank` | lifebank-soroban/contracts/identity/src/lib.rs:7-14 | the position of a role's variant in the declaration of `Role`: five fixed roles below `Custom`, which has the highest position |
| `Roles.Less` | lifebank-soroban/contracts/identity/src/lib.rs:6-14 | the derived `<` on roles (as used at line 252): an earlier variant is smaller, two `Custom` roles compare by payload, and two equal fixed variants are not ordered |
| `Roles.IsExpired` | lifebank-soroban/contracts/identity/src/lib.rs:205-209 | a grant without an expiry time never expires; a grant with expiry time `t` has expired exactly when `t <= now` |
| `Roles.LessIsStrictTotalOrder` | lifebank-soroban/contracts/identity/src/lib.rs:6-14 | the derived role order is irreflexive, asymmetric, transitive and total: two roles are different exactly when one is below the other |
| `GrantLists.SortedRolesAreDistinct` | lifebank-soroban/contracts/identity/src/lib.rs:79-83 | a list strictly sorted by role holds at most one grant per role |
| `GrantLists.FirstGreater` | lifebank-soroban/contracts/identity/src/lib.rs:250-255 | the insertion point is the first index whose role is strictly greater than the new role (or the end): no earlier grant is greater, and the grant there is |
| `GrantLists.InsertSorted` | lifebank-soroban/contracts/identity/src/lib.rs:246-264 | the loop with the `inserted` flag yields the old list with the new grant placed before the first strictly greater role, or appended at the end |
| `GrantLists.InsertedSorted` | lifebank-soroban/contracts/identity/src/lib.rs:246-264 | inserting a grant for a role the sorted list lacks gives a strictly sorted list |
| `GrantLists.InsertedMembers` | lifebank-soroban/contracts/identity/src/lib.rs:246-264 | for any list, the inserted list is one longer, its multiset is the old one plus the new grant, and it contains exactly the old grants and the new one |
| `GrantLists.RemoveRoleFromVec` | lifebank-soroban/contracts/identity/src/lib.rs:234-243 | the loop yields exactly the grants whose role differs from the given role, in their original order |
| `GrantLists.WithoutRoleMembers` | lifebank-soroban/contracts/identity/src/lib.rs:234-243 | a grant is in the result iff it was in the input and its role differs from the removed one |
| `GrantLists.WithoutRoleSorted` | lifebank-soroban/contracts/identity/src/lib.rs:234-243 | removing a role keeps a sorted list sorted |
| `GrantLists.WithoutAbsentRole` | lifebank-soroban/contracts/identity/src/lib.rs:234-243 | removing a role the list does not hold returns the list unchanged |
| `GrantLists.WithoutRoleAppend` | lifebank-soroban/contracts/identity/src/lib.rs:236-241 | the removal decides grant by grant: it distributes over concatenation |
| `GrantLists.UnexpiredMembers` | lifebank-soroban/contracts/identity/src/lib.rs:203-216 | a grant survives the cleanup filter iff it was in the list and is not expired at `now` |
| `GrantLists.UnexpiredSorted` | lifebank-soroban/contracts/identity/src/lib.rs:203-216 | the cleanup filter keeps a sorted list sorted |
| `GrantLists.CleanupAccounts` | lifebank-soroban/contracts/identity/src/lib.rs:199-216 | removed count plus kept length equals the old length, and the count is zero iff the filter keeps the whole list |
| `GrantLists.UnexpiredOfLive` | lifebank-soroban/contracts/identity/src/lib.rs:203-216 | a list with no expired grant passes the filter unchanged |
| `GrantLists.UnexpiredAppend` | lifebank-soroban/contracts/identity/src/lib.rs:203-216 | the expiry filter decides grant by grant: it distributes over concatenation |
| `GrantLists.UnexpiredAround` | lifebank-soroban/contracts/identity/src/lib.rs:203-216 | filtering a live list with one grant inserted removes at most that grant, and removes it exactly when it has expired |
| `GrantLists.WithoutRoleAround` | lifebank-soroban/contracts/identity/src/lib.rs:234-243 | removing a role from a list that holds it only in one inserted grant gives back the list without that grant |
| `GrantLists.ReinsertIsIdempotent` | lifebank-soroban/contracts/identity/src/lib.rs:62-83 | cleanup, removal and re-insertion of the same grant applied to a list the grant was just inserted into gives that same list |
| `GrantLists.RegrantedSorted` | lifebank-soroban/contracts/identity/src/lib.rs:62-83 | the list a grant builds (cleanup, remove the role, insert sorted) is strictly sorted and holds the new grant exactly once |
| `GrantLists.RegrantedMembers` | lifebank-soroban/contracts/identity/src/lib.rs:62-83 | the list a grant builds holds the new grant, no other grant for its role, and besides it exactly the unexpired grants for other roles |
| `AccessControl.WellFormedUpdate` | lifebank-soroban/contracts/identity/src/lib.rs:85 | storing a non-empty sorted list under one address keeps every stored list non-empty and sorted, and leaves the other addresses unchanged |
| `AccessControl.CleanedProperties` | lifebank-soroban/contracts/identity/src/lib.rs:190-231 | cleanup keeps exactly the unexpired grants; count plus new length equals old length; the count is 0 when the key is absent; storage is untouched when the count is 0; the key is deleted when nothing survives; other addresses and the invariant are preserved |
| `AccessControl.OverwriteAfterCleanup` | lifebank-soroban/contracts/identity/src/lib.rs:62-85 | writing an address's list after cleaning it up gives the same storage as writing it directly |
| `AccessControl.GrantedProperties` | lifebank-soroban/contracts/identity/src/lib.rs:62-85 | after a grant the list is strictly sorted, holds the new grant `{role, now, expires_at}` exactly once and no other grant for the role, holds no other grant that had expired, and keeps every other unexpired grant; other addresses and the invariant are preserved |
| `AccessControl.RevokedProperties` | lifebank-soroban/contracts/identity/src/lib.rs:101-115 | after a revocation no grant for the role remains, every other grant (expired or not) remains, an absent key stays absent, an emptied list is deleted, other addresses and the invariant are preserved |
| `AccessControl.HoldsAfterGrant` | lifebank-soroban/contracts/identity/src/lib.rs:130-151 | right after a grant at the same ledger time, the address holds the role iff the new grant has no expiry or its expiry is still ahead |
| `AccessControl.LacksAfterRevoke` | lifebank-soroban/contracts/identity/src/lib.rs:93-115 | after a revocation the address holds no unexpired grant for the role at any time |
| `AccessControl.GrantIsIdempotent` | lifebank-soroban/contracts/identity/src/lib.rs:79-85 | granting the same role with the same expiry twice at one ledger time stores the same list as granting it once |
| `AccessControl.AccessControlContract.constructor` | lifebank-soroban/contracts/identity/src/lib.rs:35-36 | a deployed contract has no administrator and no role entries, and satisfies the invariant |
| `AccessControl.AccessControlContract.Initialize` | lifebank-soroban/contracts/identity/src/lib.rs:41-46 | sets the administrator when none is set; fails with the admin unchanged when one is already set; role storage is untouched |
| `AccessControl.AccessControlContract.CleanupExpiredRolesInternal` | lifebank-soroban/contracts/identity/src/lib.rs:190-231 | the filtering loop returns the number of expired grants and leaves the storage given by `Cleaned` |
| `AccessControl.AccessControlContract.CleanupExpiredRoles` | lifebank-soroban/contracts/identity/src/lib.rs:178-187 | fails with storage unchanged when no administrator is set; otherwise returns the expired count and cleans up as above |
| `AccessControl.AccessControlContract.GrantRoleWithExpiry` | lifebank-soroban/contracts/identity/src/lib.rs:54-86 | fails with storage unchanged when no administrator is set; otherwise leaves the storage given by `Granted` (cleanup, remove the role, insert sorted) and keeps the invariant |
| `AccessControl.AccessControlContract.RevokeRole` | lifebank-soroban/contracts/identity/src/lib.rs:93-116 | fails with storage unchanged when no administrator is set; otherwise leaves the storage given by `Revoked`, without cleaning up expired grants |
| `AccessControl.AccessControlContract.HasRole` | lifebank-soroban/contracts/identity/src/lib.rs:130-151 | returns true iff the address held a grant for the role not expired at `now`; as a side effect deletes all of that address's expired grants |
| `AccessControl.AccessControlContract.GetRoles` | lifebank-soroban/contracts/identity/src/lib.rs:160-166 | returns the stored list as it is, expired grants included, or the empty list when the key is absent; changes nothing |

## Left out

- `admin.require_auth()` (authorization of the administrator's signature) is a call into the Soroban host. It is not modelled. Only the "Not initialized" check that precedes it is modelled.
- The Soroban `Env`, the persistent storage tier, entry time-to-live and ledger plumbing are replaced by a map from address to grant list, an optional administrator and an explicit `now` parameter.
- Addresses are modelled as strings. Their structure plays no part in the contract.
- `AccessControl.AccessControlContract.CleanupExpiredRolesInternal`: the removed count is an unbounded `nat`, not a `u32`. It is bounded by the list length, which a Soroban `Vec` keeps within `u32`. That length bound is not modelled.
- The `mod test;` declaration refers to a test file that is not part of this model.
