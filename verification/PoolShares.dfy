// Shares of the liquidity pool: what a deposit mints, what a withdrawal pays,
// and why rounding down favours the pool.  Amounts and shares are in stroops.
module PoolShares {
  import opened Common

  const BPS := 10_000

  datatype Pool = Pool(liquidity: nat, holders: seq<nat>)

  function TotalShares(pool: Pool): nat {
    Sum(pool.holders)
  }

  // BigInt division; the first deposit is 1:1.
  function CalculateDeposit(amount: nat, liquidity: nat, shares: nat): nat {
    if shares == 0 || liquidity == 0 then amount else amount * shares / liquidity
  }

  function CalculateWithdrawal(sold: nat, liquidity: nat, shares: nat): nat {
    if shares == 0 then 0 else sold * liquidity / shares
  }

  // ------------------------------------------------------------------
  // The pool as a state machine
  // ------------------------------------------------------------------

  // A withdrawal may leave a fee in the pool; interest only comes in.
  datatype Step =
    | Deposit(who: nat, amount: nat)
    | Withdraw(who: nat, sold: nat, fee: nat)
    | Earn(interest: nat)

  predicate Enabled(pool: Pool, step: Step) {
    match step
    case Deposit(who, _) => who < |pool.holders|
    case Withdraw(who, sold, fee) =>
      who < |pool.holders| && sold <= pool.holders[who]
      && fee <= CalculateWithdrawal(sold, pool.liquidity, TotalShares(pool)) <= pool.liquidity
    case Earn(_) => true
  }

  function Apply(pool: Pool, step: Step): Pool
    requires Enabled(pool, step)
  {
    match step
    case Deposit(who, amount) =>
      var minted := CalculateDeposit(amount, pool.liquidity, TotalShares(pool));
      Pool(pool.liquidity + amount, pool.holders[who := pool.holders[who] + minted])
    case Withdraw(who, sold, fee) =>
      var paid := CalculateWithdrawal(sold, pool.liquidity, TotalShares(pool));
      Pool(pool.liquidity - paid + fee, pool.holders[who := pool.holders[who] - sold])
    case Earn(interest) => Pool(pool.liquidity + interest, pool.holders)
  }

  lemma {:induction false} SumAfterUpdate(xs: seq<nat>, i: nat, x: nat)
    requires i < |xs|
    ensures Sum(xs[i := x]) == Sum(xs) - xs[i] + x
    ensures xs[i] <= Sum(xs)
  {
    var last := |xs| - 1;
    if i < last {
      SumAfterUpdate(xs[..last], i, x);
      assert xs[i := x][..last] == xs[..last][i := x];
    } else {
      assert xs[i := x][..last] == xs[..last];
    }
  }

  // The total of shares follows what is minted and sold.
  lemma SharesAfter(pool: Pool, step: Step)
    requires Enabled(pool, step)
    ensures TotalShares(Apply(pool, step)) == match step
            case Deposit(_, amount) => TotalShares(pool) + CalculateDeposit(amount, pool.liquidity, TotalShares(pool))
            case Withdraw(_, sold, _) => TotalShares(pool) - sold
            case Earn(_) => TotalShares(pool)
  {
    match step
    case Deposit(who, _) => SumAfterUpdate(pool.holders, who, Apply(pool, step).holders[who]);
    case Withdraw(who, _, _) => SumAfterUpdate(pool.holders, who, Apply(pool, step).holders[who]);
    case Earn(_) =>
  }

  // ------------------------------------------------------------------
  // Rounding down
  // ------------------------------------------------------------------

  lemma FloorBounds(a: nat, b: nat)
    requires b > 0
    ensures (a / b) * b <= a < (a / b) * b + b
  {}

  lemma FloorIsLargest(a: nat, b: nat, q: nat)
    requires b > 0 && q * b <= a
    ensures q <= a / b
  {
    FloorBounds(a, b);
    if q > a / b {
      MulGrows(a / b + 1, q, b);
    }
  }

  lemma MulGrows(x: int, y: int, z: nat)
    requires x <= y
    ensures x * z <= y * z
  {}

  lemma CancelFactor(x: int, y: int, z: nat)
    requires z > 0 && x * z <= y * z
    ensures x <= y
  {
    if x > y {
      MulGrows(y + 1, x, z);
    }
  }

  lemma Distribute(x: int, y: int, z: int)
    ensures (x + y) * z == x * z + y * z && (x - y) * z == x * z - y * z
  {}

  // `a` per share is at most `b` per share.
  predicate PriceAtMost(a: Pool, b: Pool) {
    a.liquidity * TotalShares(b) <= b.liquidity * TotalShares(a)
  }

  lemma DepositKeepsPrice(amount: nat, liquidity: nat, shares: nat)
    requires shares > 0
    ensures liquidity * (shares + CalculateDeposit(amount, liquidity, shares)) <= (liquidity + amount) * shares
  {
    if liquidity > 0 {
      FloorBounds(amount * shares, liquidity);
    }
  }

  lemma WithdrawKeepsPrice(sold: nat, liquidity: nat, shares: nat, fee: nat)
    requires sold <= shares && 0 < shares
    ensures liquidity * (shares - sold) <= (liquidity - CalculateWithdrawal(sold, liquidity, shares) + fee) * shares
  {
    FloorBounds(sold * liquidity, shares);
    MulGrows(0, fee, shares);
  }

  // No deposit, withdrawal or interest lowers what a share is worth.
  lemma StepNeverLowersPrice(pool: Pool, step: Step)
    requires Enabled(pool, step) && TotalShares(pool) > 0
    ensures PriceAtMost(pool, Apply(pool, step))
  {
    SharesAfter(pool, step);
    match step
    case Deposit(_, amount) => DepositKeepsPrice(amount, pool.liquidity, TotalShares(pool));
    case Withdraw(who, sold, fee) =>
      SumAfterUpdate(pool.holders, who, 0);
      WithdrawKeepsPrice(sold, pool.liquidity, TotalShares(pool), fee);
    case Earn(interest) => MulGrows(0, interest, TotalShares(pool));
  }

  lemma PriceIsTransitive(a: Pool, b: Pool, c: Pool)
    requires TotalShares(b) > 0 && PriceAtMost(a, b) && PriceAtMost(b, c)
    ensures PriceAtMost(a, c)
  {
    var x, y, z := TotalShares(a), TotalShares(b), TotalShares(c);
    MulGrows(a.liquidity * y, b.liquidity * x, z);
    MulGrows(b.liquidity * z, c.liquidity * y, x);
    assert (a.liquidity * z) * y == (a.liquidity * y) * z;
    assert (b.liquidity * x) * z == (b.liquidity * z) * x;
    assert (c.liquidity * y) * x == (c.liquidity * x) * y;
    CancelFactor(a.liquidity * z, c.liquidity * x, y);
  }

  // A run in which somebody always holds shares.
  ghost predicate Run(pools: seq<Pool>, steps: seq<Step>) {
    && |pools| == |steps| + 1
    && (forall i | 0 <= i < |pools| :: TotalShares(pools[i]) > 0)
    && (forall i | 0 <= i < |steps| :: Enabled(pools[i], steps[i]) && Apply(pools[i], steps[i]) == pools[i + 1])
  }

  lemma {:induction false} RunNeverLowersPrice(pools: seq<Pool>, steps: seq<Step>)
    requires Run(pools, steps)
    ensures PriceAtMost(pools[0], pools[|steps|])
  {
    var n := |steps|;
    if n > 0 {
      RunNeverLowersPrice(pools[..n], steps[..n - 1]);
      StepNeverLowersPrice(pools[n - 1], steps[n - 1]);
      PriceIsTransitive(pools[0], pools[n - 1], pools[n]);
    }
  }

  lemma WorthFollowsPrice(sold: nat, a: Pool, b: Pool)
    requires TotalShares(a) > 0 && TotalShares(b) > 0 && PriceAtMost(a, b)
    ensures CalculateWithdrawal(sold, a.liquidity, TotalShares(a))
            <= CalculateWithdrawal(sold, b.liquidity, TotalShares(b))
  {
    var x, y := TotalShares(a), TotalShares(b);
    var q := sold * a.liquidity / x;
    FloorBounds(sold * a.liquidity, x);
    MulGrows(q * x, sold * a.liquidity, y);
    MulGrows(a.liquidity * y, b.liquidity * x, sold);
    assert (q * x) * y == (q * y) * x;
    assert (sold * a.liquidity) * y == (a.liquidity * y) * sold;
    assert (b.liquidity * x) * sold == (sold * b.liquidity) * x;
    CancelFactor(q * y, sold * b.liquidity, x);
    FloorIsLargest(sold * b.liquidity, y, q);
  }

  // So what some shares would be paid never falls while others come and go.
  lemma WorthNeverFalls(pools: seq<Pool>, steps: seq<Step>, sold: nat)
    requires Run(pools, steps)
    ensures CalculateWithdrawal(sold, pools[0].liquidity, TotalShares(pools[0]))
            <= CalculateWithdrawal(sold, pools[|steps|].liquidity, TotalShares(pools[|steps|]))
  {
    RunNeverLowersPrice(pools, steps);
    WorthFollowsPrice(sold, pools[0], pools[|steps|]);
  }

  // ------------------------------------------------------------------
  // Solvency
  // ------------------------------------------------------------------

  function Payouts(holders: seq<nat>, liquidity: nat, shares: nat): nat {
    if holders == [] then 0
    else
      Payouts(holders[..|holders| - 1], liquidity, shares)
      + CalculateWithdrawal(holders[|holders| - 1], liquidity, shares)
  }

  lemma {:induction false} PayoutsAreCovered(holders: seq<nat>, liquidity: nat, shares: nat)
    requires shares > 0
    ensures Payouts(holders, liquidity, shares) * shares <= liquidity * Sum(holders)
    ensures liquidity * Sum(holders) <= (Payouts(holders, liquidity, shares) + |holders|) * shares
  {
    if holders != [] {
      var front, last := holders[..|holders| - 1], holders[|holders| - 1];
      PayoutsAreCovered(front, liquidity, shares);
      FloorBounds(last * liquidity, shares);
      PayoutStep(Payouts(front, liquidity, shares), last * liquidity / shares, last, Sum(front), |front|,
                 liquidity, shares);
    }
  }

  lemma PayoutStep(before: nat, paid: nat, held: nat, sum: nat, n: nat, liquidity: nat, shares: nat)
    requires before * shares <= liquidity * sum <= (before + n) * shares
    requires paid * shares <= held * liquidity < paid * shares + shares
    ensures (before + paid) * shares <= liquidity * (sum + held) <= (before + paid + n + 1) * shares
  {
    Distribute(before, paid, shares);
    Distribute(sum, held, liquidity);
    Distribute(before + n, paid + 1, shares);
    Distribute(paid, 1, shares);
  }

  // The pool can pay all its holders at once, and all but less than a stroop for
  // each of them is theirs.
  lemma PoolIsSolvent(pool: Pool)
    requires TotalShares(pool) > 0
    ensures var paid := Payouts(pool.holders, pool.liquidity, TotalShares(pool));
            paid <= pool.liquidity <= paid + |pool.holders|
  {
    var shares := TotalShares(pool);
    var paid := Payouts(pool.holders, pool.liquidity, shares);
    PayoutsAreCovered(pool.holders, pool.liquidity, shares);
    CancelFactor(paid, pool.liquidity, shares);
    CancelFactor(pool.liquidity, paid + |pool.holders|, shares);
  }

  // Whoever sells the last shares gets all there is, so an empty pool keeps no
  // more than that withdrawal's fee.
  lemma LastWithdrawalEmptiesPool(pool: Pool, who: nat, fee: nat)
    requires TotalShares(pool) > 0
    requires Enabled(pool, Withdraw(who, TotalShares(pool), fee))
    ensures var after := Apply(pool, Withdraw(who, TotalShares(pool), fee));
            TotalShares(after) == 0 && after.liquidity == fee
  {
    SharesAfter(pool, Withdraw(who, TotalShares(pool), fee));
    FloorIsLargest(TotalShares(pool) * pool.liquidity, TotalShares(pool), pool.liquidity);
  }

  // ------------------------------------------------------------------
  // In and out again
  // ------------------------------------------------------------------

  function RoundTrip(amount: nat, liquidity: nat, shares: nat): nat {
    var minted := CalculateDeposit(amount, liquidity, shares);
    CalculateWithdrawal(minted, liquidity + amount, shares + minted)
  }

  lemma RoundTripBounds(amount: nat, liquidity: nat, shares: nat, minted: nat, back: nat)
    requires minted * liquidity <= amount * shares < minted * liquidity + liquidity
    requires back * (shares + minted) <= minted * (liquidity + amount) < back * (shares + minted) + (shares + minted)
    ensures back * (shares + minted) <= amount * (shares + minted)
    ensures (amount - back - 1) * (shares + minted) < liquidity
  {
    var total := shares + minted;
    Distribute(liquidity, amount, minted);
    Distribute(shares, minted, amount);
    Distribute(amount, back, total);
    Distribute(amount - back, 1, total);
  }

  lemma {:induction false} RoundTripLosesLittle(amount: nat, liquidity: nat, shares: nat)
    requires shares > 0 && liquidity > 0
    ensures var back := RoundTrip(amount, liquidity, shares);
            var minted := CalculateDeposit(amount, liquidity, shares);
            back <= amount && (amount - back - 1) * (shares + minted) < liquidity
  {
    var minted, back := amount * shares / liquidity, RoundTrip(amount, liquidity, shares);
    FloorBounds(amount * shares, liquidity);
    FloorBounds(minted * (liquidity + amount), shares + minted);
    RoundTripBounds(amount, liquidity, shares, minted, back);
    CancelFactor(back, amount, shares + minted);
  }

  // Depositing and withdrawing at once returns no more than was paid in, exactly
  // unless the pool has liquidity that belongs to nobody; then the depositor gets
  // that as well.
  lemma RoundTripGainsExactlyWhen(amount: nat, liquidity: nat, shares: nat)
    requires amount > 0
    ensures RoundTrip(amount, liquidity, shares) > amount <==> shares == 0 && liquidity > 0
    ensures shares == 0 ==> RoundTrip(amount, liquidity, shares) == liquidity + amount
  {
    if shares == 0 {
      FloorBounds(amount * (liquidity + amount), amount);
      FloorIsLargest(amount * (liquidity + amount), amount, liquidity + amount);
      CancelFactor(RoundTrip(amount, liquidity, shares), liquidity + amount, amount);
    } else if liquidity == 0 {
      FloorBounds(amount * amount, shares + amount);
      assert amount * amount <= amount * (shares + amount);
      CancelFactor(RoundTrip(amount, liquidity, shares), amount, shares + amount);
    } else {
      RoundTripLosesLittle(amount, liquidity, shares);
    }
  }

  // Selling shares in two parts pays no more than selling them together.
  lemma SplittingPaysNoMore(one: nat, two: nat, liquidity: nat, shares: nat)
    requires one + two <= shares && one < shares
    ensures var paid := CalculateWithdrawal(one, liquidity, shares);
            && paid <= liquidity
            && paid + CalculateWithdrawal(two, liquidity - paid, shares - one)
               <= CalculateWithdrawal(one + two, liquidity, shares)
  {
    var rest := shares - one;
    var paid := one * liquidity / shares;
    FloorBounds(one * liquidity, shares);
    MulGrows(one, shares, liquidity);
    CancelFactor(paid, liquidity, shares);
    var again := two * (liquidity - paid) / rest;
    FloorBounds(two * (liquidity - paid), rest);
    SplitInequality(one, two, liquidity, shares, paid, again);
    CancelFactor((paid + again) * shares, (one + two) * liquidity, rest);
    FloorIsLargest((one + two) * liquidity, shares, paid + again);
  }

  lemma SplitInequality(one: nat, two: nat, liquidity: nat, shares: nat, paid: nat, again: nat)
    requires one + two <= shares && one < shares && paid <= liquidity
    requires paid * shares <= one * liquidity && again * (shares - one) <= two * (liquidity - paid)
    ensures ((paid + again) * shares) * (shares - one) <= ((one + two) * liquidity) * (shares - one)
  {
    var rest := shares - one;
    MulGrows(paid * shares, one * liquidity, rest - two);
    FirstPart(paid * shares, one * liquidity, rest, two);
    SecondPart(one, two, liquidity, paid, again, shares, rest);
    SumOfProducts(paid, again, shares, rest);
    SumOfProducts(one, two, liquidity, rest);
    assert (again * shares) * rest == (again * rest) * shares;
  }

  lemma SumOfProducts(x: int, y: int, z: int, w: int)
    ensures ((x + y) * z) * w == (x * z) * w + (y * z) * w
  {
    Distribute(x, y, z);
    Distribute(x * z, y * z, w);
  }

  lemma FirstPart(a: int, b: int, rest: nat, two: nat)
    requires a <= b && two <= rest
    ensures a * rest - a * two <= b * rest - b * two
  {
    MulGrows(a, b, rest - two);
    Distribute(rest, two, a);
    Distribute(rest, two, b);
  }

  lemma SecondPart(one: nat, two: nat, liquidity: nat, paid: nat, again: nat, shares: nat, rest: nat)
    requires paid <= liquidity && again * rest <= two * (liquidity - paid) && shares == rest + one
    ensures (again * rest) * shares <= (two * liquidity) * rest + (one * liquidity) * two - (paid * shares) * two
  {
    MulGrows(again * rest, two * (liquidity - paid), shares);
    Distribute(liquidity, paid, two);
    Distribute(two * liquidity, two * paid, shares);
    Distribute(rest, one, two * liquidity);
    assert (two * paid) * shares == (paid * shares) * two;
    assert (two * liquidity) * one == (one * liquidity) * two;
  }

  // ------------------------------------------------------------------
  // The withdrawal preview
  // ------------------------------------------------------------------

  datatype Refusal = InvalidShares | InsufficientShares | InsufficientLiquidity

  datatype Preview =
    | Refused(reason: Refusal)
    | Offered(expected: nat, fee: nat, net: int, remaining: nat)

  function WithdrawLiquidity(requested: int, owned: nat, available: nat, liquidity: nat, shares: nat, feeBps: nat)
    : Preview
  {
    if requested <= 0 then Refused(InvalidShares)
    else if owned <= 0 || requested > owned then Refused(InsufficientShares)
    else
      var expected := CalculateWithdrawal(requested, liquidity, shares);
      if expected > available then Refused(InsufficientLiquidity)
      else
        var fee := expected * feeBps / BPS;
        Offered(expected, fee, expected - fee, owned - requested)
  }

  lemma WorthFitsExactlyWhen(sold: nat, liquidity: nat, shares: nat, available: nat)
    requires shares > 0
    ensures var worth := CalculateWithdrawal(sold, liquidity, shares);
            && worth * shares <= sold * liquidity < (worth + 1) * shares
            && (worth <= available <==> sold * liquidity < (available + 1) * shares)
  {
    var worth := CalculateWithdrawal(sold, liquidity, shares);
    FloorBounds(sold * liquidity, shares);
    Distribute(worth, -1, shares);
    if worth <= available {
      MulGrows(worth + 1, available + 1, shares);
    } else {
      MulGrows(available + 1, worth, shares);
    }
  }

  // An offer is made exactly when the shares are owned and the liquidity is there.
  // It is for what the shares are worth, rounded down, splits the shares and the
  // amount without remainder, and with a fee of at most 100 % both parts are amounts.
  lemma OfferedExactlyWhen(requested: int, owned: nat, available: nat, liquidity: nat, shares: nat, feeBps: nat)
    ensures var preview := WithdrawLiquidity(requested, owned, available, liquidity, shares, feeBps);
            && (preview.Offered? <==>
                  0 < requested <= owned && (shares == 0 || requested * liquidity < (available + 1) * shares))
            && (preview == Refused(InvalidShares) <==> requested <= 0)
            && (preview == Refused(InsufficientShares) <==> requested > 0 && requested > owned)
            && (preview.Offered? ==>
                  && (shares == 0 ==> preview.expected == 0)
                  && (shares > 0 ==>
                        preview.expected * shares <= requested * liquidity < (preview.expected + 1) * shares)
                  && preview.net + preview.fee == preview.expected <= available
                  && preview.remaining + requested == owned
                  && preview.fee * BPS <= preview.expected * feeBps < preview.fee * BPS + BPS
                  && (preview.net >= 0 <==> preview.fee <= preview.expected)
                  && (feeBps <= BPS ==> preview.net >= 0))
  {
    var preview := WithdrawLiquidity(requested, owned, available, liquidity, shares, feeBps);
    if requested > 0 && shares > 0 {
      WorthFitsExactlyWhen(requested, liquidity, shares, available);
    }
    if preview.Offered? {
      FloorBounds(preview.expected * feeBps, BPS);
      if feeBps <= BPS {
        MulGrows(feeBps, BPS, preview.expected);
        CancelFactor(preview.fee, preview.expected, BPS);
      }
    }
  }
}
