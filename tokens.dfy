/**
 * The token registry: adding a token (the native asset, a contract address or an ENS
 * name, with the contract's metadata read over RPC), deleting one by address and chain,
 * and listing tokens joined with their chains.
 *
 * The `tokens` table is a sequence of rows in table order. Its uniqueness constraint is
 * the pair (address, chain): the key on which an insert is skipped as a conflict and the
 * pair a delete filters on. RPC answers and viem's `isAddress` are parameters.
 */
module Tokens {
  import opened Wrappers
  import opened Http

  /** viem's `zeroAddress`, which stands for a chain's native asset. */
  const ZeroAddress: string := "0x0000000000000000000000000000000000000000"

  /** The reply body of a failed schema parse is zod's error object; only its status is modelled. */
  const SchemaError: string := "ZodError"

  datatype TokenRow = TokenRow(
    address: string,
    chain: int,
    name: string,
    symbol: string,
    decimals: nat,
    erc4626AssetAddress: Option<string>,
    erc4626AssetDecimals: Option<nat>)

  datatype ChainRow = ChainRow(id: int, name: string, rpcUrl: string)

  /** A token as `getTokens` returns it: the row, with `chain` replaced by the chain it names. */
  datatype TokenView = TokenView(token: TokenRow, chain: Option<ChainRow>)

  /** What a request body became: `c.req.json()` threw, the schema refused it, or its data. */
  datatype Parsed<T> = Unreadable | Invalid | Valid(data: T)

  datatype AddRequest = AddRequest(addressOrName: string, chainId: int)

  datatype DeleteRequest = DeleteRequest(address: string, chainId: int)

  /**
   * What the chain answers while a token is added: the mainnet ENS resolution of the input,
   * the four results of the multicall (`None` where a call failed) and the `decimals()` of
   * the ERC-4626 underlying asset.
   */
  datatype ChainAnswers = ChainAnswers(
    ensAddress: Option<string>,
    name: Option<string>,
    symbol: Option<string>,
    decimals: Option<nat>,
    asset: Option<string>,
    assetDecimals: nat)

  /** JavaScript truthiness of an optional string and an optional number. */
  predicate Truthy(s: Option<string>) {
    s.Some? && s.value != ""
  }

  predicate NonZero(n: Option<nat>) {
    n.Some? && n.value != 0
  }

  predicate SameKey(a: TokenRow, b: TokenRow) {
    a.address == b.address && a.chain == b.chain
  }

  predicate HasKey(rows: seq<TokenRow>, address: string, chain: int) {
    exists i :: 0 <= i < |rows| && rows[i].address == address && rows[i].chain == chain
  }

  /** The uniqueness constraint of the `tokens` table. */
  predicate KeysUnique(rows: seq<TokenRow>) {
    forall i, j :: 0 <= i < j < |rows| ==> !SameKey(rows[i], rows[j])
  }

  /** The row inserted for the native asset: no contract is read. */
  function EtherRow(chainId: int): TokenRow {
    TokenRow(ZeroAddress, chainId, "Ether", "ETH", 18, None, None)
  }

  /** The outcome of `addToken` once its body is parsed: a row to insert, or an error reply. */
  datatype Plan = Insert(row: TokenRow) | Reject(reply: Reply)

  /** The contract address an input names: itself when it is an address, else its ENS resolution. */
  function ResolveAddress(input: string, isAddress: string -> bool, ensAddress: Option<string>): (address: Option<string>)
    ensures isAddress(input) ==> address == Some(input)
    ensures !isAddress(input) ==> (address.Some? <==> Truthy(ensAddress))
    ensures !isAddress(input) && address.Some? ==> address == ensAddress
  {
    if isAddress(input) then Some(input)
    else if Truthy(ensAddress) then ensAddress
    else None
  }

  /** The decision flow of `addToken` from a schema-valid request and the chain's answers. */
  function PlanAddToken(req: AddRequest, isAddress: string -> bool, rpc: ChainAnswers): (plan: Plan)
    ensures req.addressOrName == ZeroAddress ==> plan == Insert(EtherRow(req.chainId))
    ensures plan == Reject(Failure(400, "ENS name not found")) <==>
      req.addressOrName != ZeroAddress && !isAddress(req.addressOrName) && !Truthy(rpc.ensAddress)
    ensures plan == Reject(Failure(409, "Failed to fetch token data")) <==>
      && req.addressOrName != ZeroAddress
      && (isAddress(req.addressOrName) || Truthy(rpc.ensAddress))
      && !(Truthy(rpc.name) && Truthy(rpc.symbol) && NonZero(rpc.decimals))
    ensures plan.Insert? <==>
      || req.addressOrName == ZeroAddress
      || (&& ResolveAddress(req.addressOrName, isAddress, rpc.ensAddress).Some?
          && Truthy(rpc.name) && Truthy(rpc.symbol) && NonZero(rpc.decimals))
    ensures plan.Reject? ==> plan.reply.Failure? && plan.reply.status in {400, 409}
    ensures plan.Insert? ==> plan.row.chain == req.chainId
    ensures plan.Insert? && req.addressOrName != ZeroAddress ==>
      && Some(plan.row.address) == ResolveAddress(req.addressOrName, isAddress, rpc.ensAddress)
      && Some(plan.row.name) == rpc.name
      && Some(plan.row.symbol) == rpc.symbol
      && Some(plan.row.decimals) == rpc.decimals
      && plan.row.erc4626AssetAddress == rpc.asset
      && plan.row.erc4626AssetDecimals == (if Truthy(rpc.asset) then Some(rpc.assetDecimals) else None)
  {
    if req.addressOrName == ZeroAddress then
      Insert(EtherRow(req.chainId))
    else
      match ResolveAddress(req.addressOrName, isAddress, rpc.ensAddress)
      case None => Reject(Failure(400, "ENS name not found"))
      case Some(address) =>
        if !Truthy(rpc.name) || !Truthy(rpc.symbol) || !NonZero(rpc.decimals) then
          Reject(Failure(409, "Failed to fetch token data"))
        else
          var assetDecimals := if Truthy(rpc.asset) then Some(rpc.assetDecimals) else None;
          Insert(TokenRow(address, req.chainId, rpc.name.value, rpc.symbol.value, rpc.decimals.value,
                          rpc.asset, assetDecimals))
  }

  /** `INSERT ... ON CONFLICT DO NOTHING` on the (address, chain) key. */
  function InsertIfAbsent(rows: seq<TokenRow>, row: TokenRow): (result: seq<TokenRow>)
    ensures HasKey(rows, row.address, row.chain) ==> result == rows
    ensures !HasKey(rows, row.address, row.chain) ==> result == rows + [row]
  {
    if HasKey(rows, row.address, row.chain) then rows else rows + [row]
  }

  /** `DELETE FROM tokens WHERE address = ? AND chain = ?`, keeping the other rows in order. */
  function RemoveKey(rows: seq<TokenRow>, address: string, chain: int): (result: seq<TokenRow>)
    ensures |result| <= |rows|
    ensures forall r :: r in result <==> r in rows && !(r.address == address && r.chain == chain)
  {
    if rows == [] then []
    else if rows[0].address == address && rows[0].chain == chain then RemoveKey(rows[1..], address, chain)
    else [rows[0]] + RemoveKey(rows[1..], address, chain)
  }

  /** `chains.find((chain) => chain.id === id)`. */
  function FindChain(chains: seq<ChainRow>, id: int): (found: Option<ChainRow>)
    ensures found.None? <==> forall k :: 0 <= k < |chains| ==> chains[k].id != id
    ensures found.Some? ==>
      exists k :: 0 <= k < |chains| && chains[k] == found.value && chains[k].id == id
                  && forall j :: 0 <= j < k ==> chains[j].id != id
  {
    if chains == [] then None
    else if chains[0].id == id then Some(chains[0])
    else
      var rest := FindChain(chains[1..], id);
      assert rest.Some? ==> exists k :: 1 <= k < |chains| && chains[k] == rest.value && chains[k].id == id
                                        && forall j :: 1 <= j < k ==> chains[j].id != id;
      rest
  }

  /** `tokens.map((token) => ({ ...token, chain: chains.find(...) }))`. */
  function JoinChains(tokens: seq<TokenRow>, chains: seq<ChainRow>): (views: seq<TokenView>)
    ensures |views| == |tokens|
    ensures forall i :: 0 <= i < |tokens| ==> views[i].token == tokens[i]
    ensures forall i :: 0 <= i < |tokens| ==>
      (views[i].chain.None? <==> forall k :: 0 <= k < |chains| ==> chains[k].id != tokens[i].chain)
    ensures forall i :: 0 <= i < |tokens| && views[i].chain.Some? ==>
      views[i].chain.value in chains && views[i].chain.value.id == tokens[i].chain
    ensures forall i :: 0 <= i < |tokens| ==> views[i].chain == FindChain(chains, tokens[i].chain)
  {
    if tokens == [] then []
    else [TokenView(tokens[0], FindChain(chains, tokens[0].chain))] + JoinChains(tokens[1..], chains)
  }

  /** After an insert the key is present, whether the row was new or a conflict. */
  lemma InsertIfAbsentHasKey(rows: seq<TokenRow>, row: TokenRow)
    ensures HasKey(InsertIfAbsent(rows, row), row.address, row.chain)
  {
    if !HasKey(rows, row.address, row.chain) {
      assert InsertIfAbsent(rows, row)[|rows|] == row;
    }
  }

  lemma InsertIfAbsentKeepsKeysUnique(rows: seq<TokenRow>, row: TokenRow)
    requires KeysUnique(rows)
    ensures KeysUnique(InsertIfAbsent(rows, row))
  {
  }

  /** Adding the same row twice leaves the table as adding it once. */
  lemma InsertIfAbsentIdempotent(rows: seq<TokenRow>, row: TokenRow)
    ensures InsertIfAbsent(InsertIfAbsent(rows, row), row) == InsertIfAbsent(rows, row)
  {
    InsertIfAbsentHasKey(rows, row);
  }

  /** A delete whose key no row carries leaves the table exactly as it was. */
  lemma {:induction false} RemoveAbsentKey(rows: seq<TokenRow>, address: string, chain: int)
    requires !HasKey(rows, address, chain)
    ensures RemoveKey(rows, address, chain) == rows
  {
    if rows != [] {
      assert !HasKey(rows[1..], address, chain) by {
        forall i | 0 <= i < |rows| - 1
          ensures !(rows[1..][i].address == address && rows[1..][i].chain == chain)
        {
          assert rows[1..][i] == rows[i + 1];
        }
      }
      RemoveAbsentKey(rows[1..], address, chain);
    }
  }

  lemma TailKeysUnique(rows: seq<TokenRow>)
    requires rows != [] && KeysUnique(rows)
    ensures KeysUnique(rows[1..])
  {
  }

  /** No row with the deleted key survives a delete. */
  lemma RemoveKeyRemovesKey(rows: seq<TokenRow>, address: string, chain: int)
    ensures !HasKey(RemoveKey(rows, address, chain), address, chain)
  {
  }

  /** A row kept in front of the rest of a delete shares its key with none of them. */
  lemma ConsKeysUnique(head: TokenRow, rest: seq<TokenRow>)
    requires KeysUnique(rest)
    requires forall r :: r in rest ==> !SameKey(head, r)
    ensures KeysUnique([head] + rest)
  {
  }

  lemma {:induction false} RemoveKeyKeepsKeysUnique(rows: seq<TokenRow>, address: string, chain: int)
    requires KeysUnique(rows)
    ensures KeysUnique(RemoveKey(rows, address, chain))
  {
    if rows != [] {
      var tail := rows[1..];
      TailKeysUnique(rows);
      RemoveKeyKeepsKeysUnique(tail, address, chain);
      var rest := RemoveKey(tail, address, chain);
      if !(rows[0].address == address && rows[0].chain == chain) {
        forall r | r in rest ensures !SameKey(rows[0], r) {
          var k :| 0 <= k < |tail| && tail[k] == r;
          assert rows[k + 1] == r;
        }
        ConsKeysUnique(rows[0], rest);
      }
    }
  }

  class TokenTable {
    var rows: seq<TokenRow>
    var chains: seq<ChainRow>

    ghost predicate Valid()
      reads this
    {
      KeysUnique(rows)
    }

    constructor (rows: seq<TokenRow>, chains: seq<ChainRow>)
      requires KeysUnique(rows)
      ensures Valid() && this.rows == rows && this.chains == chains
    {
      this.rows := rows;
      this.chains := chains;
    }

    /** POST /tokens. */
    method AddToken(body: Parsed<AddRequest>, isAddress: string -> bool, rpc: ChainAnswers) returns (reply: Reply)
      requires Valid()
      modifies this`rows
      ensures Valid()
      ensures body.Unreadable? ==> reply == InternalError && rows == old(rows)
      ensures body.Invalid? ==> reply == Failure(400, SchemaError) && rows == old(rows)
      ensures body.Valid? ==>
        match PlanAddToken(body.data, isAddress, rpc)
        case Insert(row) => reply == Success && rows == InsertIfAbsent(old(rows), row)
                            && HasKey(rows, row.address, row.chain)
        case Reject(r) => reply == r && rows == old(rows)
    {
      match body
      case Unreadable => return InternalError;
      case Invalid => return Failure(400, SchemaError);
      case Valid(req) =>
        match PlanAddToken(req, isAddress, rpc)
        case Reject(r) => return r;
        case Insert(row) =>
          InsertIfAbsentKeepsKeysUnique(rows, row);
          InsertIfAbsentHasKey(rows, row);
          rows := InsertIfAbsent(rows, row);
          reply := Success;
    }

    /** DELETE /tokens: the schema also demands `isAddress(address)`. */
    method DeleteToken(body: Parsed<DeleteRequest>, isAddress: string -> bool) returns (reply: Reply)
      requires Valid()
      modifies this`rows
      ensures Valid()
      ensures body.Unreadable? ==> reply == InternalError && rows == old(rows)
      ensures body.Invalid? || (body.Valid? && !isAddress(body.data.address)) ==>
        reply == Failure(400, SchemaError) && rows == old(rows)
      ensures body.Valid? && isAddress(body.data.address) ==>
        && reply == Success
        && rows == RemoveKey(old(rows), body.data.address, body.data.chainId)
        && !HasKey(rows, body.data.address, body.data.chainId)
        && (!HasKey(old(rows), body.data.address, body.data.chainId) ==> rows == old(rows))
    {
      match body
      case Unreadable => return InternalError;
      case Invalid => return Failure(400, SchemaError);
      case Valid(req) =>
        if !isAddress(req.address) {
          return Failure(400, SchemaError);
        }
        RemoveKeyKeepsKeysUnique(rows, req.address, req.chainId);
        RemoveKeyRemovesKey(rows, req.address, req.chainId);
        if !HasKey(rows, req.address, req.chainId) {
          RemoveAbsentKey(rows, req.address, req.chainId);
        }
        rows := RemoveKey(rows, req.address, req.chainId);
        reply := Success;
    }

    /** GET /tokens: both tables read in one transaction. */
    function GetTokens(): (views: seq<TokenView>)
      reads this
      ensures |views| == |rows|
      ensures forall i :: 0 <= i < |rows| ==> views[i].token == rows[i]
      ensures forall i :: 0 <= i < |rows| ==>
        (views[i].chain.None? <==> forall k :: 0 <= k < |chains| ==> chains[k].id != rows[i].chain)
      ensures forall i :: 0 <= i < |rows| ==> views[i].chain == FindChain(chains, rows[i].chain)
    {
      JoinChains(rows, chains)
    }
  }
}
