# ZilPay background logic in Dafny

A verified model of the parts of the ZilPay browser-extension wallet that contain the
extension's own logic, as opposed to calls into the Zilliqa SDK:

- **ZRC token table** (`ZilliqaController`). The background controller keeps a stored map from
  network key to a list of ZRC tokens, plus a selected coin. `TokenStorage.AddZRCToken` creates
  the table when none is stored, rejects a symbol that is already tracked on the selected
  network, and otherwise appends the token and selects it. `TokenStorage.RmZRCToken` filters a
  symbol out and selects the default coin again. `InitInpage` decides which account a page gets
  to see. `GetZRCTokenInfo` follows a token's proxy address and builds the token record.
- **Block watcher** (`BlockSocket.SocketControl`). A class with the watcher's fields: the
  running flag, the last block number, the subscription, the polling timer, and the network
  status and block number it reports. There is one method per callback: start, socket open,
  NEW_BLOCK, UNSUBSCRIBE, stop, and a poll answer. The notifications sent to observers are a
  ghost sequence. The class invariant says that `blockNumber` is 0 or the last notified number,
  and that two consecutive notifications never carry numbers that are `===`-equal.
- **`fromZil` filter** (`FromZilFilter`). It divides an amount by 10^decimals the way big.js
  does: the division is carried to 20 places and rounded half up, then `toFixed(3)` rounds
  half up again. Amounts are integers counted in units of 10^-20.
- **Popup store** (`ZilliqaStore.WalletStore`). `BalanceUpdate` writes the fetched balance, or 0,
  into the selected identity only. `BuildTransaction` derives the nonce, the gas limit, the
  signing key and the transaction record.

The SDK calls are parameters. For the controller they are the `Chain` value: maps of contract
inits, total supplies and ZRC balances, where a missing entry is a call that throws. For the
store they are the `Sdk` value of uninterpreted functions: getBalance, toQa, bytes.pack, the
mnemonic's key derivation and createTransaction. Browser storage is the fields of the classes.
Rejected and resolved promises are return values. Calls of `sendResponse` are recorded apart from
them, where the two differ: `replied` for addZRCToken, `replies` for rmZRCToken. A JavaScript
`undefined` is `None`. A TypeError raised by reading a field of `undefined` is an error result
that leaves the state unchanged.

Assumptions about files that are not part of this model:
- The configuration module is not part of this model. The default token's symbol is taken to be
  `ZIL`, the chain's native coin. The network keys are a parameter.
- lib/storage is not part of this model. A single-key `storage.get` is taken to return that
  field's value, which is how `rmZRCToken` uses it.

Behaviour that the model makes visible:
- `_getBlockchainInfo` has no `isNaN` guard, unlike the NEW_BLOCK handler. A non-numeric block
  number from polling is recorded as NaN and notified. Since NaN `===` NaN is false, the same
  non-numeric answer is notified again on every poll. The invariant is therefore stated with
  JavaScript's `===` (`StrictEquals`).
- Removing the default coin sends a first reply holding the table before filtering. It then
  still filters, writes and calls `sendResponse` a second time.
- `toFixed` writes a minus sign for a negative quotient even when it rounds to zero (`-0.000`).
- With more than 20 decimals the amount is rounded twice, so the shown text can be off by more
  than half a thousandth. The amount 49999999999999999999999 with 26 decimals is just under
  0.0005; the division rounds it to 0.0005, and `toFixed(3)` then shows `0.001`.
- A start that subscribes, a start whose setup throws, the UNSUBSCRIBE event and another
  throwing start overwrite `_interval` without clearing the first polling timer. stop() then
  clears only the second, and the first keeps polling.

## Model

| member | source | states |
|---|---|---|
| `ZilliqaController.InitInpage` | packages/background/controllers/zilliqa.js:25-49 | the page sees `identities[selectedAddress]` exactly when a wallet is stored, its identities are an array (and the index is in range) and the domain is connected, otherwise no account; provider, connection, enable flag and network are passed through |
| `ZilliqaController.SelectedIdentity` | packages/background/controllers/zilliqa.js:35-37 | `identities[selectedAddress]` is an identity exactly when the identities are an array and the index is in range, and it is then the identity at that index |
| `ZilliqaController.GetZRCTokenInfo` | packages/background/controllers/zilliqa.js:71-119 | no wallet, or a wallet whose identities are `undefined` or `null`, fails before any request; an unknown contract or any failed request is BAD_CONTRACT_ADDRESS; a record is built from the init at the proxy address when the contract names a non-empty one (followed once) and from its own init otherwise, with `address` the final `_this_address`, the total supply read there and the selected account's balance there |
| `ZilliqaController.TokenInfoSucceeds` | packages/background/controllers/zilliqa.js:83-111 | when every request answers, the record is built (the error cases are the only ones) |
| `ZilliqaController.FreshTable` | packages/background/controllers/zilliqa.js:135-142 | the table created when none is stored has exactly the first three network keys (`"undefined"` for a missing one), each with an empty list |
| `ZilliqaController.TokenStorage.AddZRCToken` | packages/background/controllers/zilliqa.js:125-167 | a failed info lookup, an unknown network or a symbol already on the selected network rejects and writes nothing, and `sendResponse` is called only for the duplicate symbol (the lookup is made without a callback); otherwise the token is appended to the selected network's list only, the selected coin becomes its symbol and the reply carries both; unique symbols stay unique |
| `ZilliqaController.HasSymbolAppend` | packages/background/controllers/zilliqa.js:144-157 | after a push the duplicate test finds a symbol exactly when the list already had it or the pushed token carries it |
| `ZilliqaController.AppendKeepsUnique` | packages/background/controllers/zilliqa.js:144-157 | appending a token whose symbol is absent keeps a list's symbols unique |
| `ZilliqaController.Without` | packages/background/controllers/zilliqa.js:202 | the filtered list holds exactly the tokens of the list whose symbol differs, so none with the removed symbol, and is no longer |
| `ZilliqaController.WithoutAppend` | packages/background/controllers/zilliqa.js:202 | filtering a concatenation filters each part, so the remaining tokens keep their order |
| `ZilliqaController.WithoutAbsent` | packages/background/controllers/zilliqa.js:202 | filtering a symbol that is absent leaves the list as it was |
| `ZilliqaController.WithoutKeepsUnique` | packages/background/controllers/zilliqa.js:202 | filtering keeps unique symbols unique |
| `ZilliqaController.AddThenRemove` | packages/background/controllers/zilliqa.js:157 | removing the symbol of a token just appended to a list that lacked it gives the list back |
| `ZilliqaController.TokenStorage.RmZRCToken` | packages/background/controllers/zilliqa.js:187-215 | removing the default coin first calls `sendResponse` with the unfiltered table; with no table or an unknown network nothing is written; otherwise only the selected network's list is filtered, the selected coin becomes the default and the final `sendResponse` call carries the new table; unique symbols stay unique |
| `BlockSocket.StrictEquals` | packages/background/services/blockchain/socket.js:51 | `===` on numbers holds only for equal numbers, never when either side is NaN, and always for a number and itself |
| `BlockSocket.ToNumber` | packages/background/services/blockchain/socket.js:49-51 | `Number` of a block number string is a number exactly for digit strings, 0 for the empty string |
| `BlockSocket.NumberOfString` | packages/background/services/blockchain/socket.js:55-57 | reading back `String(blockNumber)` gives the block number |
| `BlockSocket.StringOfNumber` | packages/background/services/blockchain/socket.js:116-130 | a canonical block number string is what `String(Number(s))` writes back, so both paths report the same text for it |
| `BlockSocket.SocketControl.constructor` | packages/background/services/blockchain/socket.js:13-23 | starts not running, at block 0, with no subscription, timer or notification |
| `BlockSocket.SocketControl.Start` | packages/background/services/blockchain/socket.js:25-67 | no-op when running; otherwise registers the subscription without running yet, or on a setup error starts the 30-second polling timer and runs, and a timer `_interval` still named is left running without a name |
| `BlockSocket.SocketControl.OnOpen` | packages/background/services/blockchain/socket.js:42-46 | an opened socket sets running and the network status |
| `BlockSocket.SocketControl.OnNewBlock` | packages/background/services/blockchain/socket.js:48-58 | a non-numeric or already recorded number changes nothing; a new one becomes `blockNumber`, is notified exactly once and is reported as its string; the invariant is kept |
| `BlockSocket.SocketControl.OnUnsubscribe` | packages/background/services/blockchain/socket.js:60-62 | UNSUBSCRIBE clears running and nothing else |
| `BlockSocket.SocketControl.Stop` | packages/background/services/blockchain/socket.js:69-91 | no-op when not running; otherwise the subscription and the timer `_interval` names are gone and running is false; timers it no longer names keep running |
| `BlockSocket.RepeatedNaNPoll` | packages/background/services/blockchain/socket.js:116-128 | two polls answering the same non-numeric block number notify twice, both times with NaN |
| `BlockSocket.TimerLeak` | packages/background/services/blockchain/socket.js:25-98 | after start, a throwing start, UNSUBSCRIBE, another throwing start and stop, the watcher is not running and names no timer, yet one polling timer is still running |
| `BlockSocket.SocketControl.Poll` | packages/background/services/blockchain/socket.js:108-135 | the recorded number changes nothing; a new one is recorded, notified with the recent hashes, sets the status and reports the raw text; a failed request clears the status and stops; the invariant is kept |
| `FromZilFilter.FromZil` | src/filters/from-zil.js:15-29 | the number 0 exactly when an argument is not numeric; rounded text exactly when rounding, which is the default; rounded text always has three places |
| `FromZilFilter.Quotient` | src/filters/from-zil.js:20-22 | `_amount.div(_decimals)` in units of 10^-20 is within half a unit of value / 10^decimals, rounds an exact half unit away from zero and keeps the amount's sign |
| `FromZilFilter.RoundHalfUp` | src/filters/from-zil.js:22-25 | the nearest integer to n/d, ties away from zero, sign kept (big.js's default rounding) |
| `FromZilFilter.ToFixed3` | src/filters/from-zil.js:25 | the text is an optional minus, canonical whole digits, a point and exactly three digits, and the minus is written exactly when the quotient is negative, rounded to zero or not |
| `FromZilFilter.ReadToFixed3` | src/filters/from-zil.js:25 | the text denotes the quotient rounded half up to thousandths |
| `FromZilFilter.FixedNearQuotient` | src/filters/from-zil.js:24-25 | the rounded text is within 0.0005 of the 20-place quotient |
| `FromZilFilter.QuotientExact` | src/filters/from-zil.js:20-22 | with at most 20 decimals the division is exact |
| `FromZilFilter.UnroundedIsQuotient` | src/filters/from-zil.js:20-28 | with at most 20 decimals the unrounded result is value / 10^decimals |
| `FromZilFilter.UnroundedWholeUnits` | src/filters/from-zil.js:20-28 | with no decimals and no rounding the result is the value itself |
| `FromZilFilter.UnroundedWithinDivisionPrecision` | src/filters/from-zil.js:22 | for any decimals the unrounded result is within half a unit in the 20th place of value / 10^decimals |
| `FromZilFilter.RoundedWithinHalfThousandth` | src/filters/from-zil.js:15-25 | with at most 20 decimals, the default result is rounded text within 0.0005 of value / 10^decimals |
| `FromZilFilter.NegativeZeroText` | src/filters/from-zil.js:25 | a quotient of -10^-20 is shown as `-0.000` |
| `FromZilFilter.RoundsTwiceBeyondTwentyPlaces` | src/filters/from-zil.js:22-25 | with 26 decimals an amount just under 0.0005 is shown as `0.001`, because it is rounded in the division and again in `toFixed` |
| `ZilliqaStore.WalletStore.BalanceUpdate` | src/stroe/zilliqa.js:27-47 | the selected identity's balance becomes getBalance's balance, or 0 without a result; every other identity and field is unchanged; the stored value is returned; an index past the end, or a rejected getBalance, fails with nothing changed |
| `ZilliqaStore.WalletStore.BuildTransaction` | src/stroe/zilliqa.js:49-84 | the nonce is the on-chain nonce + 1, or 1; the gas limit is 1; the key comes from the mnemonic (loaded from the stored seed if it was not yet) at the selected index, the same index as the sender; a created transaction gets the amount's decimal text and is recorded under the sender's address; a rejected getBalance changes nothing; a key derivation or `toQa` that throws leaves the mnemonic loaded and no key added |
| `ZilliqaStore.ReportedBalance` | src/stroe/zilliqa.js:36-40 | the stored balance is the result's balance, or 0 when there is no result |
| `Decimal.NatToString` | packages/background/services/blockchain/socket.js:57 | `String(n)` is canonical decimal text, with one digit exactly for n below 10 |
| `Decimal.ReadNatToString` | src/stroe/zilliqa.js:79 | the decimal text written for an amount reads back as that amount |

## Left out

- `rmAllTransactionList`, `toDefaulTokens` and `getMinGasPrice` in the controller only forward to the account controller or to the SDK, which are not part of this model.
- `networkControl.netwrokSync`, `BrowserStorage` persistence, `console.log`, the Vuex `changeProvider` mutation and the getters are I/O or plumbing.
- Asynchronous interleaving: each callback, and each `_getBlockchainInfo` once its requests have answered, is one atomic step. The poll `_pollingInterval` starts at once is a separate `Poll` step, and the 30-second timing is only the recorded period.
- ZilliqaController.TokenStorage.RmZRCToken: the model records each call of `sendResponse`, not what the page receives. Whether a second call reaches the page depends on the message router, which is not part of this model; with the browser's own `runtime.onMessage` callback only the first call is delivered.
- The socket's ERROR listener only detaches handlers, which is state outside this model.
- The SocketControl constructor throws when its argument is not a `NetworkControl`. The model's constructor takes the network control's status and block number directly, so it has no wrong argument to refuse.
- `_getRecentTransactions` is an RPC call. Its answer, or its failure, is part of `PollReply`.
- BlockSocket.ToNumber: JavaScript `Number` is modelled only on digit strings. Whitespace, signs, fractions, hexadecimal and exponents read as NaN here. Numbers are exact integers, whereas a JavaScript number is a double: above 2^53 `Number` rounds the digits.
- BlockSocket.StringOfNumber: holds for JavaScript only below 2^53. Above that the digits are rounded, and from 10^21 `String` writes exponential notation such as `1e+21`.
- BlockSocket.SocketControl.Start: calling start twice before the socket opens builds a second subscriber. The model keeps only a flag saying a subscription exists. A leaked polling timer is a count; its later polls are `Poll` steps like any other.
- FromZilFilter.FromZil: the unrounded result is the value big.js's `toString` denotes, not that text. big.js switches to exponential notation below 1e-6 and from 1e21 up.
- FromZilFilter.FromZil: amounts are integers, and decimals are natural numbers. Text that `isNaN` accepts but `Big` rejects, such as the empty string, throws and is not modelled.
- ZilliqaController.InitInpage: JavaScript distinguishes `null`, used when the checks fail, from `undefined`, an index out of range. Both are `None` here.
- ZilliqaController.GetZRCTokenInfo: the promise rejects with the SDK's own error while the reply says BAD_CONTRACT_ADDRESS. Both are one error value here. Token fields are opaque strings. Identities that are neither an array nor `undefined`/`null` are taken to give `undefined` when indexed. `getZRCBalance` with an `undefined` account (index out of range) is taken to throw, which is BAD_CONTRACT_ADDRESS.
- ZilliqaStore.WalletStore.BuildTransaction: the SDK's signing, encoding and key derivation are uninterpreted functions. `bytes.pack` and loading the mnemonic (`bip32Node`) are taken not to throw. What the `transactions` storage mutation does with a record lies outside this model, which keeps the sequence of records passed to it.
