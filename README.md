# evm-portfolio server: authentication, spot-price scaling, token registry

A Dafny model of three self-contained pieces of the evm-portfolio server (a Bun/Hono
service that tracks token holdings of a set of accounts across EVM chains):

- **Single-user password and sessions** (`Auth`, `AuthHandlers`, `AuthMiddleware`). The
  state is row id = 1 of the `auth` table (absent, or present with a nullable password
  hash) and the in-memory set of session tokens, held by the class `Auth.AuthStore`. The
  routes `/auth/status`, `/auth/setup`, `/auth/login` and `/auth/logout` are methods that
  run the source's guards in the source's order, answer 400, 401 or 500 without touching
  the store, and otherwise store the hash and/or add or remove one session. The gate in
  front of every other route is a function that opens iff no password is set or the
  request's cookie names a live session. A missing `auth` row reads as "password set"
  (`undefined !== null`), which locks the installation: `MissingRowLockout` shows it.
- **Spot-price scaling** (`Price`). The aggregator contract is chosen by chain id (the
  zkSync Era one for chain 324, a shared one elsewhere), and its 18-decimal rate is
  rescaled to the token's decimals as `floor(rate * 10^decimals / 10^18)` in unbounded
  integers.
- **Token registry** (`Tokens`). `addToken` is a pure decision (`PlanAddToken`) over the
  parsed request and the chain's answers, followed by an insert that does nothing when a
  row with the same (address, chain) already exists; `deleteToken` removes the rows with
  that (address, chain); `getTokens` joins each token with the first chain of the same id.
  The table is a field of the class `Tokens.TokenTable` whose invariant is that no two
  rows share an (address, chain) key.

Foreign calls are parameters: bcrypt verification is the store's `verify` function and
bcrypt's salted output is a caller-supplied hash known to verify the password;
`crypto.randomUUID` is a caller-supplied non-empty token; the on-chain rate read is a
function `readRate(chainId, aggregator, token)`; viem's `isAddress` is a predicate parameter; ENS
resolution and the multicall results are an `Option`-valued record.

## Model

| member | source | states |
|---|---|---|
| `Auth.AuthStore.constructor` | server/src/auth.ts:73 | a started server holds the database's auth row and no sessions |
| `Auth.AuthStore.IsPasswordSet` | server/src/auth.ts:26-34 | false exactly when the row exists with a NULL hash; a missing row counts as set |
| `Auth.AuthStore.VerifyLogin` | server/src/auth.ts:55-67 | true iff the row exists with a non-empty hash that bcrypt verifies against the password; true implies a password is set |
| `Auth.AuthStore.IsValidSession` | server/src/auth.ts:92-95 | false for a missing or empty token whatever the store holds; otherwise true iff the token is in the session set |
| `Auth.AuthStore.SetPassword` | server/src/auth.ts:39-50 | on an existing row stores the new hash, after which a password is set and the password logs in; a missing row stays missing; sessions unchanged |
| `Auth.AuthStore.CreateSession` | server/src/auth.ts:85-87 | adds the token, which then validates if non-empty; a present token leaves the set unchanged; validity of every other token unchanged |
| `Auth.AuthStore.DestroySession` | server/src/auth.ts:100-102 | removes the token, which no longer validates; an absent token leaves the set unchanged; validity of every other token unchanged |
| `AuthHandlers.GetAuthStatus` | server/src/handlers/auth.ts:20-29 | reports "not set" only for a present row with NULL hash, and "authenticated" iff the cookie names a live session |
| `AuthHandlers.SetupPassword` | server/src/handlers/auth.ts:36-68 | 400 when a password is set, checked before the body; 500 on an unreadable body; 400 for a missing, non-string or shorter than 8 password (`AcceptableNewPassword` false); each error changes nothing and sets no cookie; success iff none of these, then the hash is stored, exactly the new token is added, returned as the cookie, and both the password and the cookie validate |
| `AuthHandlers.Login` | server/src/handlers/auth.ts:75-107 | never changes the hash; 400 when no password is set; 500 on an unreadable body; 400 for a missing, empty or non-string password (`PresentPassword` false; no length minimum); 401 when verification fails; success iff the password verifies, adding exactly the new token, which validates |
| `AuthHandlers.Logout` | server/src/handlers/auth.ts:113-125 | always succeeds and always clears the session cookie; removes the cookie's token when it is non-empty and nothing else; the cookie no longer validates |
| `AuthMiddleware.Gate` | server/src/middleware/auth.ts:13-29 | passes iff no password is set or the cookie names a live session; otherwise answers 401 "Unauthorized"; being a function it changes neither hash nor sessions |
| `AuthMiddleware.SessionLifecycle` | server/src/middleware/auth.ts:8-29 | on a fresh install the gate is open, setup's cookie is admitted while an anonymous request is not, logout closes the gate to that cookie, and a later login with the same password opens it again |
| `AuthMiddleware.MissingRowLockout` | server/src/auth.ts:26-34 | with the auth row missing, setup answers 400, login fails, and the gate refuses a request with no session |
| `Price.AggregatorAddress` | server/src/price.ts:7-12 | the zkSync aggregator exactly when the chain id is zkSync's, the shared default address exactly otherwise |
| `Price.PriceInEth` | server/src/price.ts:33-35 | the floor bounds `price * 10^18 <= rate * 10^decimals < (price + 1) * 10^18` |
| `Price.GetRateToEth` | server/src/price.ts:24-35 | the same floor bounds for the rate read, through that chain's client, from the aggregator chosen for the chain id |
| `Price.PriceAtEthDecimals` | server/src/price.ts:33-35 | a token with 18 decimals is priced at exactly the rate |
| `Price.PriceMonotone` | server/src/price.ts:33-35 | for fixed decimals the price is non-decreasing in the rate |
| `Price.PriceAtMostRate` | server/src/price.ts:33-35 | for at most 18 decimals the price never exceeds the rate |
| `Price.Pow10Add` | server/src/price.ts:33-34 | the exact power `10 ** n` turns a sum of exponents into a product, `10^(m+n) = 10^m * 10^n` |
| `Price.PriceAboveEthDecimals` | server/src/price.ts:33-35 | for 18 + k decimals the price is exactly `rate * 10^k`, with no rounding |
| `Tokens.ResolveAddress` | server/src/handlers/tokens.ts:43-59 | an address input is used as is; any other input resolves iff ENS returns a truthy address, and then to that address |
| `Tokens.PlanAddToken` | server/src/handlers/tokens.ts:29-105 | an insert iff the address is zero, or it resolves and name, symbol and decimals are all truthy; the zero address yields the fixed Ether row with no contract data; 400 exactly when a non-zero input does not resolve; 409 exactly when the address resolves but name, symbol or decimals is falsy (including decimals 0 and an empty name); an inserted row carries the request's chain, the resolved address and the fetched metadata, its asset address is the probe's answer as returned, and its asset decimals are null iff the asset probe returned nothing |
| `Tokens.InsertIfAbsent` | server/src/handlers/tokens.ts:92-104 | the insert-or-nothing of both the Ether row (lines 31-41) and a fetched row: the old table when a row with the key is present, otherwise the old table with the row appended; its properties are `InsertIfAbsentHasKey`, `InsertIfAbsentKeepsKeysUnique` and `InsertIfAbsentIdempotent` |
| `Tokens.InsertIfAbsentHasKey` | server/src/handlers/tokens.ts:92-104 | after an insert-or-nothing the (address, chain) key is present |
| `Tokens.InsertIfAbsentKeepsKeysUnique` | server/src/handlers/tokens.ts:31-41 | insert-or-nothing keeps (address, chain) unique |
| `Tokens.InsertIfAbsentIdempotent` | server/src/handlers/tokens.ts:92-104 | inserting the same row twice leaves the table as inserting it once |
| `Tokens.RemoveKey` | server/src/handlers/tokens.ts:138-142 | keeps exactly the rows whose address or chain differs, and never grows the table |
| `Tokens.RemoveAbsentKey` | server/src/handlers/tokens.ts:138-144 | a delete whose key no row carries leaves the table exactly as it was |
| `Tokens.RemoveKeyKeepsKeysUnique` | server/src/handlers/tokens.ts:138-142 | a delete keeps (address, chain) unique |
| `Tokens.RemoveKeyRemovesKey` | server/src/handlers/tokens.ts:138-142 | no row with the deleted (address, chain) survives a delete |
| `Tokens.FindChain` | server/src/handlers/tokens.ts:121 | none iff no chain has the id; otherwise a chain with the id that no earlier chain in the list shares |
| `Tokens.JoinChains` | server/src/handlers/tokens.ts:118-123 | one entry per token in table order, carrying the token, and a chain that is absent iff no chain has the token's chain id, otherwise the first chain in the list with that id (`FindChain`) |
| `Tokens.TokenTable.AddToken` | server/src/handlers/tokens.ts:19-108 | 500 on an unreadable body and 400 on a schema failure, both without change; otherwise the plan's rejection without change, or success with the row inserted unless its key is already present; the key is then present and keys stay unique |
| `Tokens.TokenTable.DeleteToken` | server/src/handlers/tokens.ts:126-145 | 500 on an unreadable body; 400 on a schema failure or a non-address, without change; otherwise success with exactly the matching rows removed, none left with that key, the table unchanged when nothing matched, keys still unique |
| `Tokens.TokenTable.GetTokens` | server/src/handlers/tokens.ts:110-124 | one view per stored token, in table order, each carrying its row and the first chain with the row's chain id, absent iff no chain has that id |

## Left out

- Bcrypt hashing and verification, `crypto.randomUUID`, viem (`isAddress`, `getEnsAddress`, `multicall`, `readContract`), `getViemClient`, zod and Kysely are foreign calls: their results are parameters of the model.
- RPC calls that throw (an unreachable node, a chain `getViemClient` does not know, a reverting `decimals()` on the ERC-4626 asset) end `addToken` with Hono's 500 before any insert; the model takes every RPC call as answering.
- Cookie attributes (httpOnly, sameSite, max age, path) and the cookie name; a cookie is the token it carries.
- The `updatedAt` timestamp written by `setPassword` (a clock read).
- The exact body of a zod failure reply: the model keeps its 400 status and a fixed error string.
- Interleavings of concurrent requests (two setups racing between the "password set" check and the update): each handler is one sequential step.
- `AuthHandlers.SetupPassword`: the length check counts characters of the model string, while JavaScript's `length` counts UTF-16 code units, so a password with characters outside the Basic Multilingual Plane can pass in the source with fewer than 8 characters.
- `Price.PriceInEth`: uses the exact power 10^decimals for every non-negative integer `decimals`; the source computes `10 ** decimals` as a double, exact only up to 22 decimals, and throws for fractional or negative decimals (token decimals are ERC-20 `uint8` values, so these never arise from the table).
- The conversion `Number(formatEther(priceInEth))` to a floating-point number.
- The columns of `tokens` and `chains` beyond those the handlers read or write (row ids, timestamps): the schema migrations are not part of this model, and the uniqueness of (address, chain) is taken from the delete filter.
- The balance refresh workers, the scheduler, the aggregation of balances and the net-worth snapshot job are not part of this model.
