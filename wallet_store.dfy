/** The popup's `zilliqa` store module (src/stroe/zilliqa.js): refreshing the
    selected account's balance and building a payment transaction.  The SDK
    is the `Sdk` value of opaque functions; the storage module's state is the
    `WalletStore` object. */
module ZilliqaStore {
  import opened Wrappers
  import opened Decimal
  import opened Accounts

  /** The `result` of getBalance: the balance in Qa and the account nonce. */
  datatype BalanceInfo = BalanceInfo(balance: nat, nonce: nat)

  /** `config[selectedNet]`: the chain id and message version. */
  datatype NetConfig = NetConfig(chainId: nat, msgVersion: nat)

  /** The fields passed to `transactions.new`. */
  datatype TxParams = TxParams(version: nat, nonce: nat, gasPrice: nat, amount: nat,
                               gasLimit: nat, toAddr: string, pubKey: string)

  /** The transaction createTransaction returns, with `amount` overwritten by
      the decimal text of the amount in Qa. */
  datatype Tx = Tx(id: string, params: TxParams, amount: string)

  /** One call of the storage module's `transactions` mutation. */
  datatype TxRecord = TxRecord(tx: Tx, address: string)

  /** What awaiting getBalance gives: the request rejected (the node could
      not be reached), or it answered, with or without a `result`. */
  datatype BalanceReply = Threw | Answered(result: Option<BalanceInfo>)

  /** The SDK and key derivation, left uninterpreted.  `privateKeyAt(seed, i)`
      is the mnemonic's key at index i; toQa, privateKeyAt and
      createTransaction are None when they throw. */
  datatype Sdk = Sdk(getBalance: string -> BalanceReply,
                     toQa: string -> Option<nat>,
                     pack: (nat, nat) -> nat,
                     privateKeyAt: (string, nat) -> Option<string>,
                     createTransaction: TxParams -> Option<string>)

  /** The balance balanceUpdate stores for an answered getBalance: 0 when
      there is no result. */
  function ReportedBalance(reply: Option<BalanceInfo>): (r: nat)
    ensures reply.Some? ==> r == reply.value.balance
    ensures reply.None? ==> r == 0
  {
    match reply
    case None => 0
    case Some(info) => info.balance
  }

  /** The gas limit every transaction is built with. */
  const GasLimit: nat := 1

  class WalletStore {
    var identities: seq<Identity>       // wallet.identities
    var selectedAddress: nat            // wallet.selectedAddress
    var selectedNet: string
    var config: map<string, NetConfig>
    var bip39: string                   // the stored seed phrase
    var mnemonicSeed: Option<string>    // the seed the mnemonic was loaded with, if any
    var sdkKeys: seq<string>            // keys added to the SDK wallet, in order
    var transactions: seq<TxRecord>     // transactions recorded, in order

    constructor(identities: seq<Identity>, selectedAddress: nat, selectedNet: string,
                config: map<string, NetConfig>, bip39: string)
      ensures this.identities == identities && this.selectedAddress == selectedAddress
      ensures this.selectedNet == selectedNet && this.config == config && this.bip39 == bip39
      ensures mnemonicSeed.None? && sdkKeys == [] && transactions == []
    {
      this.identities := identities;
      this.selectedAddress := selectedAddress;
      this.selectedNet := selectedNet;
      this.config := config;
      this.bip39 := bip39;
      mnemonicSeed := None;
      sdkKeys := [];
      transactions := [];
    }

    /** balanceUpdate: asks for the selected identity's balance and writes it
        (0 without a result) into that identity alone, returning what it
        wrote.  A selected index past the end throws before anything else,
        and a rejected request before anything is written. */
    method BalanceUpdate(sdk: Sdk) returns (r: Option<nat>)
      modifies this
      ensures old(selectedAddress) >= |old(identities)| ==> r.None? && unchanged(this)
      ensures old(selectedAddress) < |old(identities)| ==>
                var before := old(identities)[old(selectedAddress)];
                var reply := sdk.getBalance(before.address);
                && (reply.Threw? ==> r.None? && unchanged(this))
                && (reply.Answered? ==>
                      var stored := ReportedBalance(reply.result);
                      && identities == old(identities)[old(selectedAddress) := before.(balance := stored)]
                      && r == Some(stored))
      ensures |identities| == |old(identities)|
      ensures forall i :: 0 <= i < |identities| && i != old(selectedAddress) ==>
                identities[i] == old(identities)[i]
      ensures selectedAddress == old(selectedAddress) && selectedNet == old(selectedNet)
      ensures config == old(config) && bip39 == old(bip39) && mnemonicSeed == old(mnemonicSeed)
      ensures sdkKeys == old(sdkKeys) && transactions == old(transactions)
    {
      var addressIndex := selectedAddress;
      if addressIndex >= |identities| {
        return None;
      }
      var address := identities[addressIndex].address;
      var reply := sdk.getBalance(address);
      if reply.Threw? {
        return None;
      }
      var balance: nat;
      if reply.result.None? {
        balance := 0;
      } else {
        balance := reply.result.value.balance;
      }
      identities := identities[addressIndex := identities[addressIndex].(balance := balance)];
      r := Some(balance);
    }

    /** buildTransaction: a payment `to` of `amount` ZIL at `gasPrice` ZIL,
        from the selected identity, signed with the key derived at the same
        index.  The nonce is the on-chain nonce plus one (1 for an account
        the node does not know) and the gas limit is 1.  A created
        transaction is recorded under the sender's address.  A rejected
        balance request leaves everything as it was; a key derivation or
        conversion that throws comes after the mnemonic is loaded and before
        the key is added to the SDK wallet. */
    method BuildTransaction(to: string, amount: string, gasPrice: string, sdk: Sdk)
      returns (r: Option<Tx>)
      modifies this
      ensures old(selectedNet) !in old(config) || old(selectedAddress) >= |old(identities)| ==>
                r.None? && unchanged(this)
      ensures old(selectedNet) in old(config) && old(selectedAddress) < |old(identities)| ==>
                var index := old(selectedAddress);
                var sender := old(identities)[index];
                var reply := sdk.getBalance(sender.address);
                && (reply.Threw? ==> r.None? && unchanged(this))
                && (reply.Answered? ==>
                      var cfg := old(config)[old(selectedNet)];
                      var seed := if old(mnemonicSeed).Some? then old(mnemonicSeed).value else old(bip39);
                      var nonce := if reply.result.Some? then reply.result.value.nonce + 1 else 1;
                      var key := sdk.privateKeyAt(seed, index);
                      var gasPriceQa := sdk.toQa(gasPrice);
                      var amountQa := sdk.toQa(amount);
                      && mnemonicSeed == Some(seed)
                      && (key.None? || gasPriceQa.None? || amountQa.None? ==>
                            r.None? && sdkKeys == old(sdkKeys) && transactions == old(transactions))
                      && (key.Some? && gasPriceQa.Some? && amountQa.Some? ==>
                            var params := TxParams(sdk.pack(cfg.chainId, cfg.msgVersion), nonce,
                                                   gasPriceQa.value, amountQa.value, GasLimit,
                                                   to, sender.publicKey);
                            var created := sdk.createTransaction(params);
                            && sdkKeys == old(sdkKeys) + [key.value]
                            && (created.None? ==> r.None? && transactions == old(transactions))
                            && (created.Some? ==>
                                  && r == Some(Tx(created.value, params, NatToString(amountQa.value)))
                                  && transactions == old(transactions) + [TxRecord(r.value, sender.address)])))
      ensures r.Some? ==> r.value.params.nonce >= 1 && r.value.params.gasLimit == GasLimit
      ensures identities == old(identities) && selectedAddress == old(selectedAddress)
      ensures selectedNet == old(selectedNet) && config == old(config) && bip39 == old(bip39)
    {
      var addressIndex := selectedAddress;
      if selectedNet !in config {
        return None;
      }
      var cfg := config[selectedNet];
      if addressIndex >= |identities| {
        return None;
      }
      var sender := identities[addressIndex];
      var reply := sdk.getBalance(sender.address);
      if reply.Threw? {
        return None;
      }
      if mnemonicSeed.None? {
        mnemonicSeed := Some(bip39);
      }
      var nonce: nat := if reply.result.Some? then reply.result.value.nonce else 0;
      var gasLimit := GasLimit;
      var version := sdk.pack(cfg.chainId, cfg.msgVersion);
      var privateKey := sdk.privateKeyAt(mnemonicSeed.value, addressIndex);
      if privateKey.None? {
        return None;
      }
      var gasPriceQa := sdk.toQa(gasPrice);
      if gasPriceQa.None? {
        return None;
      }
      var amountQa := sdk.toQa(amount);
      if amountQa.None? {
        return None;
      }
      nonce := nonce + 1;
      sdkKeys := sdkKeys + [privateKey.value];
      var params := TxParams(version, nonce, gasPriceQa.value, amountQa.value, gasLimit,
                             to, sender.publicKey);
      var created := sdk.createTransaction(params);
      if created.None? {
        return None;
      }
      var tx := Tx(created.value, params, NatToString(amountQa.value));
      transactions := transactions + [TxRecord(tx, sender.address)];
      r := Some(tx);
    }
  }
}
