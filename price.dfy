/**
 * The spot-price read: which aggregator contract a chain is asked, and how its 18-decimal
 * `getRateToEth` answer is rescaled, in exact big-integer arithmetic, to the token's own
 * decimal precision. The on-chain read itself is a parameter.
 */
module Price {

  /** `zksync.id` of viem's chain table (zkSync Era mainnet). */
  const ZkSyncChainId: int := 324
  const ZkSyncAggregator: string := "0xc9bB6e4FF7dEEa48e045CEd9C0ce016c7CFbD500"
  const DefaultAggregator: string := "0x0AdDd25a91563696D8567Df78D5A01C9a991F9B8"

  /** The aggregator quotes every rate with the 18 decimals of ETH. */
  const EthDecimals: nat := 18
  /** `BigInt(10 ** 18)`, the denominator of the rescaling. */
  const WeiPerEth: nat := 1_000_000_000_000_000_000

  /** `SPOT_PRICE_AGGREGATOR(chainId).address`. */
  function AggregatorAddress(chainId: int): (address: string)
    ensures address == ZkSyncAggregator <==> chainId == ZkSyncChainId
    ensures address == DefaultAggregator <==> chainId != ZkSyncChainId
  {
    if chainId == ZkSyncChainId then ZkSyncAggregator else DefaultAggregator
  }

  /** The exact value of `10 ** n` as a BigInt. */
  function Pow10(n: nat): nat {
    if n == 0 then 1 else 10 * Pow10(n - 1)
  }

  lemma {:induction false} Pow10Add(m: nat, n: nat)
    ensures Pow10(m + n) == Pow10(m) * Pow10(n)
  {
    if n > 0 {
      Pow10Add(m, n - 1);
      assert Pow10(m + n) == 10 * Pow10(m + (n - 1));
    }
  }

  /**
   * `(rate * BigInt(10 ** decimals)) / BigInt(10 ** 18)`: BigInt division truncates,
   * which for these non-negative operands is the floor.
   */
  function PriceInEth(rate: nat, decimals: nat): (price: nat)
    ensures price * WeiPerEth <= rate * Pow10(decimals) < (price + 1) * WeiPerEth
  {
    var n := rate * Pow10(decimals);
    DivFloor(n, WeiPerEth);
    n / WeiPerEth
  }

  lemma DivFloor(n: nat, d: nat)
    requires d >= 1
    ensures (n / d) * d <= n < (n / d + 1) * d
  {
  }

  /**
   * `getRateToEth`: read `getRateToEth(address, true)` through the chain's client from the
   * chain's aggregator (`readRate(chainId, aggregator, token)` is what that contract on that
   * chain answers) and rescale it.
   */
  function GetRateToEth(chainId: int, address: string, decimals: nat, readRate: (int, string, string) -> nat): (price: nat)
    ensures var rate := readRate(chainId, AggregatorAddress(chainId), address);
      price * WeiPerEth <= rate * Pow10(decimals) < (price + 1) * WeiPerEth
  {
    PriceInEth(readRate(chainId, AggregatorAddress(chainId), address), decimals)
  }

  lemma {:induction false} Pow10Monotone(m: nat, n: nat)
    requires m <= n
    ensures Pow10(m) <= Pow10(n)
  {
    if m < n {
      Pow10Monotone(m, n - 1);
    }
  }

  lemma MulLeftMonotone(a: nat, b: nat, c: nat)
    requires a <= b
    ensures a * c <= b * c
  {
  }

  lemma MulCancel(a: nat, b: nat, c: nat)
    requires a * c < b * c
    ensures a < b
  {
  }

  lemma MulRearrange(a: nat, b: nat, c: nat)
    ensures a * (b * c) == (a * c) * b
  {
  }

  /** The floor bounds pin the quotient down: any `q` inside them is `price`. */
  lemma FloorUnique(n: nat, d: nat, q: nat, price: nat)
    requires d >= 1
    requires q * d <= n < (q + 1) * d
    requires price * d <= n < (price + 1) * d
    ensures q == price
  {
  }

  lemma Pow10EthDecimals()
    ensures Pow10(EthDecimals) == WeiPerEth
  {
    assert Pow10(6) == 1_000_000;
    assert Pow10(12) == 1_000_000_000_000;
  }

  /** A token with ETH's own 18 decimals is priced at exactly the quoted rate. */
  lemma PriceAtEthDecimals(rate: nat)
    ensures PriceInEth(rate, EthDecimals) == rate
  {
    Pow10EthDecimals();
    FloorUnique(rate * WeiPerEth, WeiPerEth, rate, PriceInEth(rate, EthDecimals));
  }

  /** For a fixed precision a higher rate never gives a lower price. */
  lemma PriceMonotone(rate1: nat, rate2: nat, decimals: nat)
    requires rate1 <= rate2
    ensures PriceInEth(rate1, decimals) <= PriceInEth(rate2, decimals)
  {
    var p1, p2 := PriceInEth(rate1, decimals), PriceInEth(rate2, decimals);
    MulLeftMonotone(rate1, rate2, Pow10(decimals));
    MulCancel(p1, p2 + 1, WeiPerEth);
  }

  /** A token with at most 18 decimals is never priced above the quoted rate. */
  lemma PriceAtMostRate(rate: nat, decimals: nat)
    requires decimals <= EthDecimals
    ensures PriceInEth(rate, decimals) <= rate
  {
    var p := PriceInEth(rate, decimals);
    Pow10Monotone(decimals, EthDecimals);
    Pow10EthDecimals();
    MulLeftMonotone(Pow10(decimals), WeiPerEth, rate);
    MulCancel(p, rate + 1, WeiPerEth);
  }

  /** A token with more than 18 decimals is priced without rounding: the rate scaled up by the excess. */
  lemma PriceAboveEthDecimals(rate: nat, extra: nat)
    ensures PriceInEth(rate, EthDecimals + extra) == rate * Pow10(extra)
  {
    Pow10Add(EthDecimals, extra);
    Pow10EthDecimals();
    var q := rate * Pow10(extra);
    MulRearrange(rate, WeiPerEth, Pow10(extra));
    FloorUnique(q * WeiPerEth, WeiPerEth, q, PriceInEth(rate, EthDecimals + extra));
  }
}
