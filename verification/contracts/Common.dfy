/** Vocabulary shared by the models: options and results, the host environment of one
    contract invocation, and the protocol constants of `contracts/shared`. */
module Common {

  datatype Option<+T> = None | Some(value: T)

  /** The contract errors the modelled code can raise, followed by the two failures that come
      from the host: a missing authorisation, and a token transfer without funds. */
  datatype Error =
    | NotAuthorized | NotFound | InvalidInput
    | CreditNotFound | CreditNotPending | CreditNotActive | CreditAlreadyRetired | CreditNotOwned | AlreadyVoted
    | OfferNotFound | OfferExpired | OfferAlreadyFilled | InsufficientAmount | OfferNotCancellable
    | InvalidProof | RegistryNotFound | AlreadyBridged
    | VerifierNotFound | VerifierAlreadyRegistered | InsufficientStake | CooldownActive
    | HostAuth | HostTransfer

  /** `Err` is a panic: the host throws away every write of the invocation. */
  datatype Result<+T> = Ok(value: T) | Err(error: Error) {
    predicate IsFailure() { Err? }
    function PropagateFailure<U>(): Result<U> requires Err? { Err(error) }
    function Extract(): T requires Ok? { value }
  }

  datatype Outcome = Pass | Fail(error: Error) {
    predicate IsFailure() { Fail? }
    function PropagateFailure<U>(): Result<U> requires Fail? { Err(error) }
  }

  function Need(condition: bool, error: Error): Outcome {
    if condition then Pass else Fail(error)
  }

  /** What an outcome tells the caller that was refused. */
  function Refused<T>(r: Result<T>): Option<Error> {
    match r case Ok(_) => None case Err(e) => Some(e)
  }

  /** `error` if there is this fault, else what the later checks find. */
  function First(fault: bool, error: Error, later: Option<Error>): Option<Error> {
    if fault then Some(error) else later
  }

  datatype Address = Address(key: nat)

  /** What one invocation sees of the host: who signed it, and the ledger clock. */
  datatype Env = Env(auth: set<Address>, now: u64, sequence: nat) {
    /** `a.require_auth()` */
    function RequireAuth(a: Address): Result<()> {
      if a in auth then Ok(()) else Err(HostAuth)
    }

    /** The environment of a cross-contract call made by the contract at address `a`. */
    function CallFrom(a: Address): Env {
      this.(auth := auth + {a})
    }
  }

  /** The invocation that returned `r` and left `after` did what `spec` says: the same
      value and state on success, the same error on failure. What a failed invocation
      leaves behind is not described: the host rolls it back (see `Chain.Invoke`). */
  ghost predicate Commits<S(!new), T(!new)>(r: Result<T>, after: S, spec: Result<(S, T)>) {
    match spec
    case Ok((state, value)) => r == Ok(value) && after == state
    case Err(error) => r == Err(error)
  }

  const MAX_VERIFIERS: nat := 20
  const PROTOCOL_FEE_BPS: nat := 50
  const APPROVAL_WINDOW_SECONDS: nat := 604_800
  const MAX_TONNES: int := 1_000_000_000_000
  const MIN_STAKE_AMOUNT: int := 1_000_000_000
  const COOLDOWN_PERIOD_SECONDS: nat := 2_592_000
  const MAX_BATCH_RETIRE: nat := 100
  const MAX_LISTINGS_PAGE: nat := 50

  const U32_MAX: nat := 0xFFFF_FFFF
  type u32 = n: nat | n <= U32_MAX
  const U64_MAX: nat := 0xFFFF_FFFF_FFFF_FFFF
  type u64 = n: nat | n <= U64_MAX
  const I128_MAX: int := 0x7FFF_FFFF_FFFF_FFFF_FFFF_FFFF_FFFF_FFFF
  const I128_RANGE: int := 0x1_0000_0000_0000_0000_0000_0000_0000_0000
  type i128 = x: int | InI128(x)

  predicate InI128(x: int) {
    -I128_MAX - 1 <= x <= I128_MAX
  }

  // The contracts are deployed as a release build, in which plain arithmetic wraps around.

  /** The i128 that a result wraps to. */
  function Wrap128(x: int): (r: i128)
    ensures r == x <==> InI128(x)
    ensures x > I128_MAX ==> r <= x - I128_RANGE
    ensures x < -I128_MAX - 1 ==> r >= x + I128_RANGE
  {
    (x + I128_MAX + 1) % I128_RANGE - I128_MAX - 1
  }

  /** The u32 that a sum wraps to. */
  function WrapU32(x: nat): (r: u32)
    ensures r == x <==> x <= U32_MAX
  {
    x % (U32_MAX + 1)
  }

  /** The seconds from `since` to `now`. They wrap around if the clock has gone backwards. */
  function Elapsed(now: u64, since: u64): (r: u64)
    ensures now >= since ==> r == now - since
    ensures now < since ==> r == now - since + U64_MAX + 1
  {
    (now - since) % (U64_MAX + 1)
  }

  lemma WrapU32Adds(a: nat, b: nat)
    ensures WrapU32(WrapU32(a) + b) == WrapU32(a + b)
  {
  }

  /** `u32::saturating_add` */
  function SaturatingAdd(a: u32, b: u32): u32 {
    if a + b <= U32_MAX then a + b else U32_MAX
  }

  function Min(a: int, b: int): int {
    if a <= b then a else b
  }

  /** Rust's integer division, which truncates toward zero. */
  function TruncDiv(a: int, b: int): int
    requires b > 0
  {
    if a >= 0 then a / b else -((-a) / b)
  }

  /** A wrapped amount, divided by one of the contracts' two scales, tells that it wrapped: the
      quotient is the exact one if and only if nothing wrapped. */
  lemma QuotientIsExactIff(x: int, scale: int)
    requires scale == 1000 || scale == 10000
    ensures TruncDiv(Wrap128(x), scale) == TruncDiv(x, scale) <==> InI128(x)
  {
    QuotientIsNear(x, scale);
    QuotientIsNear(Wrap128(x), scale);
  }

  lemma QuotientIsNear(x: int, scale: int)
    requires scale == 1000 || scale == 10000
    ensures -scale < x - scale * TruncDiv(x, scale) < scale
    ensures x >= 0 ==> 0 <= scale * TruncDiv(x, scale) <= x
    ensures x <= 0 ==> x <= scale * TruncDiv(x, scale) <= 0
  {
    if scale == 1000 {
      assert x >= 0 ==> TruncDiv(x, 1000) == x / 1000;
    } else {
      assert x >= 0 ==> TruncDiv(x, 10000) == x / 10000;
    }
  }

  predicate Distinct<T(==)>(list: seq<T>) {
    forall i, j | 0 <= i < j < |list| :: list[i] != list[j]
  }

  /** `list` without `a`, as the contracts rebuild their address lists. */
  function Without(list: seq<Address>, a: Address): seq<Address> {
    if list == [] then []
    else Without(list[..|list| - 1], a) + (if list[|list| - 1] == a then [] else [list[|list| - 1]])
  }

  lemma {:induction false} WithoutKeepsDistinct(list: seq<Address>, a: Address)
    requires Distinct(list)
    ensures Distinct(Without(list, a)) && |Without(list, a)| <= |list|
    ensures forall x :: x in Without(list, a) <==> x in list && x != a
  {
    if list != [] {
      var front, last := list[..|list| - 1], list[|list| - 1];
      WithoutKeepsDistinct(front, a);
      assert list == front + [last] && last !in front;
    }
  }

  /** The list stored under `key`, empty if there is none: `get(..).unwrap_or_else(|| vec![])`. */
  function ListAt<K, V>(m: map<K, seq<V>>, key: K): seq<V> {
    if key in m then m[key] else []
  }
}
