/** The background controller that answers the inpage script and keeps the
    table of tracked ZRC tokens (packages/background/controllers/zilliqa.js).
    Storage is the `TokenStorage` object; SDK answers are the `Chain` value. */
module ZilliqaController {
  import opened Wrappers
  import opened Accounts

  /** DEFAULT_TOKEN.symbol: the chain's native coin, which is always tracked. */
  const DefaultSymbol: string := "ZIL"

  /** The ways a request ends without a resolved answer.  MissingWallet (no
      wallet, or no identities in it) and UnknownNetwork are the TypeErrors
      JavaScript raises on reading a field of `undefined` or `null`. */
  datatype Error = BadContractAddress | Unique | MissingWallet | UnknownNetwork

  // ---------------------------------------------------------------------
  // initInpage

  /** `wallet.identities` as stored: `undefined` or `null`, some other value
      that is not an array, or an array. */
  datatype Identities = Missing | NotAnArray | List(items: seq<Identity>)

  datatype StoredWallet = StoredWallet(identities: Identities, selectedAddress: nat)

  /** The object initInpage sends back to the page. */
  datatype InpageData = InpageData(provider: string, account: Option<Identity>,
                                   isConnect: bool, isEnable: bool, net: string)

  /** `identities[selectedAddress]` for identities that exist; reading past
      the end, or indexing a value that is not an array, gives `undefined`,
      here None. */
  function SelectedIdentity(wallet: StoredWallet): (r: Option<Identity>)
    ensures r.Some? <==> wallet.identities.List? && wallet.selectedAddress < |wallet.identities.items|
    ensures r.Some? ==> r.value == wallet.identities.items[wallet.selectedAddress]
  {
    match wallet.identities
    case List(items) =>
      if wallet.selectedAddress < |items| then Some(items[wallet.selectedAddress]) else None
    case _ => None
  }

  /** The account exposed to a page: only for a stored wallet whose identities
      form an array, and only when the page's domain is connected. */
  function InitInpage(wallet: Option<StoredWallet>, isConnect: bool, provider: string,
                      isEnable: bool, net: string): (d: InpageData)
    ensures d.account.Some? <==>
              && wallet.Some? && wallet.value.identities.List? && isConnect
              && wallet.value.selectedAddress < |wallet.value.identities.items|
    ensures d.account.Some? ==>
              d.account.value == wallet.value.identities.items[wallet.value.selectedAddress]
    ensures !isConnect ==> d.account.None?
    ensures d.provider == provider && d.isConnect == isConnect
    ensures d.isEnable == isEnable && d.net == net
  {
    var account := if wallet.Some? && wallet.value.identities.List? && isConnect
                   then SelectedIdentity(wallet.value) else None;
    InpageData(provider, account, isConnect, isEnable, net)
  }

  // ---------------------------------------------------------------------
  // getZRCTokenInfo

  /** The init parameters of a token contract, as getSmartContractInit
      reports them. */
  datatype ContractInit = ContractInit(thisAddress: string, proxyAddress: Option<string>,
                                       contractOwner: string, decimals: string,
                                       name: string, symbol: string)

  /** What the node answers: contract inits by address, the `total_supply`
      field of each contract's state, and ZRC balances by (contract, holder).
      A missing entry is a request that throws. */
  datatype Chain = Chain(inits: map<string, ContractInit>,
                         totalSupply: map<string, string>,
                         zrcBalance: map<(string, string), string>)

  datatype Token = Token(address: string, balance: string, owner: string, decimals: string,
                         name: string, symbol: string, totalSupply: string)

  /** `if (result.proxy_address)`: present and not the empty string. */
  predicate HasProxy(init: ContractInit)
  {
    init.proxyAddress.Some? && init.proxyAddress.value != ""
  }

  /** The address whose init the record is built from: the proxy named by the
      contract, followed once, or the contract itself. */
  function InitSource(chain: Chain, address: string): string
    requires address in chain.inits
  {
    var init := chain.inits[address];
    if HasProxy(init) then init.proxyAddress.value else address
  }

  /** Reads a token's init (once more at its proxy when it names one), then its
      total supply and the selected account's balance at the final
      `_this_address`, and assembles the record.  Any failed request rejects
      with BAD_CONTRACT_ADDRESS; a missing wallet, or a wallet without
      identities, fails before any request. */
  function GetZRCTokenInfo(wallet: Option<StoredWallet>, address: string, chain: Chain): (r: Result<Token, Error>)
    ensures wallet.None? || wallet.value.identities.Missing? ==> r == Err(MissingWallet)
    ensures wallet.Some? && !wallet.value.identities.Missing? && address !in chain.inits ==>
              r == Err(BadContractAddress)
    ensures r.Err? ==> r.error == MissingWallet || r.error == BadContractAddress
    ensures wallet.Some? && !wallet.value.identities.Missing? && r.Err? ==> r.error == BadContractAddress
    ensures r.Ok? ==>
              && wallet.Some? && wallet.value.identities.List? && address in chain.inits
              && var source := InitSource(chain, address);
                 && source in chain.inits
                 && var init := chain.inits[source];
                    && SelectedIdentity(wallet.value).Some?
                    && r.value.address == init.thisAddress
                    && r.value.owner == init.contractOwner
                    && r.value.decimals == init.decimals
                    && r.value.name == init.name
                    && r.value.symbol == init.symbol
                    && init.thisAddress in chain.totalSupply
                    && r.value.totalSupply == chain.totalSupply[init.thisAddress]
                    && (init.thisAddress, SelectedIdentity(wallet.value).value.address) in chain.zrcBalance
                    && r.value.balance == chain.zrcBalance[(init.thisAddress, SelectedIdentity(wallet.value).value.address)]
  {
    if wallet.None? || wallet.value.identities.Missing? then Err(MissingWallet)
    else if address !in chain.inits then Err(BadContractAddress)
    else
      var first := chain.inits[address];
      if HasProxy(first) && first.proxyAddress.value !in chain.inits then Err(BadContractAddress)
      else
        var init := if HasProxy(first) then chain.inits[first.proxyAddress.value] else first;
        var account := SelectedIdentity(wallet.value);
        if init.thisAddress !in chain.totalSupply then Err(BadContractAddress)
        else if account.None? || (init.thisAddress, account.value.address) !in chain.zrcBalance then
          Err(BadContractAddress)
        else
          Ok(Token(init.thisAddress, chain.zrcBalance[(init.thisAddress, account.value.address)],
                   init.contractOwner, init.decimals, init.name, init.symbol,
                   chain.totalSupply[init.thisAddress]))
  }

  /** Every request answering makes the lookup succeed: the error cases above
      are the only ones. */
  lemma TokenInfoSucceeds(wallet: Option<StoredWallet>, address: string, chain: Chain)
    requires wallet.Some? && address in chain.inits
    requires InitSource(chain, address) in chain.inits
    requires SelectedIdentity(wallet.value).Some?
    requires var a := chain.inits[InitSource(chain, address)].thisAddress;
             a in chain.totalSupply && (a, SelectedIdentity(wallet.value).value.address) in chain.zrcBalance
    ensures GetZRCTokenInfo(wallet, address, chain).Ok?
  {
  }

  // ---------------------------------------------------------------------
  // The token table

  /** Tracked tokens per network key. */
  type Table = map<string, seq<Token>>

  /** Some token in the list carries the symbol (the duplicate test before an add). */
  predicate HasSymbol(list: seq<Token>, symbol: string)
  {
    exists i :: 0 <= i < |list| && list[i].symbol == symbol
  }

  /** Appending a token adds its symbol, and only its symbol, to those the
      list carries. */
  lemma {:induction false} HasSymbolAppend(list: seq<Token>, token: Token, symbol: string)
    ensures HasSymbol(list + [token], symbol) <==> HasSymbol(list, symbol) || token.symbol == symbol
  {
    var l := list + [token];
    if HasSymbol(list, symbol) {
      var i :| 0 <= i < |list| && list[i].symbol == symbol;
      assert l[i] == list[i];
    }
    if token.symbol == symbol {
      assert l[|list|] == token;
    }
    if HasSymbol(l, symbol) {
      var i :| 0 <= i < |l| && l[i].symbol == symbol;
      if i < |list| {
        assert list[i] == l[i];
      }
    }
  }

  ghost predicate UniqueSymbols(list: seq<Token>)
  {
    forall i, j :: 0 <= i < j < |list| ==> list[i].symbol != list[j].symbol
  }

  ghost predicate TableUnique(table: Table)
  {
    forall net :: net in table ==> UniqueSymbols(table[net])
  }

  /** `keys[i]` of `Object.keys(config)`; past the end it is `undefined`,
      which becomes the property name "undefined". */
  function NetKeyAt(keys: seq<string>, i: nat): string
  {
    if i < |keys| then keys[i] else "undefined"
  }

  /** The table addZRCToken creates when none is stored. */
  function FreshTable(keys: seq<string>): (t: Table)
    ensures t.Keys == {NetKeyAt(keys, 0), NetKeyAt(keys, 1), NetKeyAt(keys, 2)}
    ensures forall net :: net in t ==> t[net] == []
  {
    map[NetKeyAt(keys, 0) := [], NetKeyAt(keys, 1) := [], NetKeyAt(keys, 2) := []]
  }

  /** The list without the tokens that carry the symbol, the rest in their
      order (what removal leaves on the selected network). */
  function Without(list: seq<Token>, symbol: string): (r: seq<Token>)
    ensures forall t :: t in r <==> t in list && t.symbol != symbol
    ensures !HasSymbol(r, symbol)
    ensures |r| <= |list|
  {
    if list == [] then []
    else
      var rest := Without(list[1..], symbol);
      assert forall t :: t in list <==> t == list[0] || t in list[1..];
      if list[0].symbol == symbol then rest else [list[0]] + rest
  }

  /** Filtering keeps order: it works piecewise on a concatenation. */
  lemma {:induction false} WithoutAppend(a: seq<Token>, b: seq<Token>, symbol: string)
    ensures Without(a + b, symbol) == Without(a, symbol) + Without(b, symbol)
  {
    if a != [] {
      assert (a + b)[1..] == a[1..] + b;
      WithoutAppend(a[1..], b, symbol);
    } else {
      assert a + b == b;
    }
  }

  /** Filtering out a symbol that is absent changes nothing. */
  lemma {:induction false} WithoutAbsent(list: seq<Token>, symbol: string)
    requires !HasSymbol(list, symbol)
    ensures Without(list, symbol) == list
  {
    if list != [] {
      assert list[0].symbol != symbol;
      assert !HasSymbol(list[1..], symbol) by {
        forall i | 0 <= i < |list[1..]| ensures list[1..][i].symbol != symbol {
          assert list[1..][i] == list[i + 1];
        }
      }
      WithoutAbsent(list[1..], symbol);
    }
  }

  /** Filtering keeps a list's symbols unique. */
  lemma {:induction false} WithoutKeepsUnique(list: seq<Token>, symbol: string)
    requires UniqueSymbols(list)
    ensures UniqueSymbols(Without(list, symbol))
  {
    if list != [] {
      var rest := Without(list[1..], symbol);
      WithoutKeepsUnique(list[1..], symbol);
      if list[0].symbol != symbol {
        forall t | t in rest ensures t.symbol != list[0].symbol {
          var k :| 0 <= k < |list[1..]| && list[1..][k] == t;
          assert list[k + 1] == t;
        }
        var r := [list[0]] + rest;
        forall i, j | 0 <= i < j < |r| ensures r[i].symbol != r[j].symbol {
          if i == 0 {
            assert r[j] in rest;
          } else {
            assert r[i] == rest[i - 1] && r[j] == rest[j - 1];
          }
        }
      }
    }
  }

  /** Removing a token just added restores the list: remove undoes add. */
  lemma AddThenRemove(list: seq<Token>, token: Token)
    requires !HasSymbol(list, token.symbol)
    ensures Without(list + [token], token.symbol) == list
  {
    WithoutAppend(list, [token], token.symbol);
    WithoutAbsent(list, token.symbol);
    assert Without([token], token.symbol) == [];
  }

  /** Appending a token whose symbol is new keeps the symbols unique. */
  lemma AppendKeepsUnique(list: seq<Token>, token: Token)
    requires UniqueSymbols(list) && !HasSymbol(list, token.symbol)
    ensures UniqueSymbols(list + [token])
  {
    var r := list + [token];
    forall i, j | 0 <= i < j < |r| ensures r[i].symbol != r[j].symbol {
      if j == |list| {
        assert r[i] == list[i];
      } else {
        assert r[i] == list[i] && r[j] == list[j];
      }
    }
  }

  /** The `{ resolve: ... }` payload: the token table and the selected coin. */
  datatype Reply = Reply(tokens: Option<Table>, selectedCoin: string)

  /** The two stored fields the controller reads and writes. */
  class TokenStorage {
    var tokens: Option<Table>   // FIELDS.TOKENS
    var selectedCoin: string    // FIELDS.SELECTED_COIN

    constructor(tokens: Option<Table>, selectedCoin: string)
      ensures this.tokens == tokens && this.selectedCoin == selectedCoin
    {
      this.tokens := tokens;
      this.selectedCoin := selectedCoin;
    }

    /** addZRCToken, given what getZRCTokenInfo produced, the selected network
        and the keys of the network configuration; `replied` says whether
        `sendResponse` is called.  The lookup is made without a callback, so
        its failure, like the TypeError of an unknown network, only rejects;
        a duplicate and a success are answered. */
    method AddZRCToken(info: Result<Token, Error>, selectedNet: string, netKeys: seq<string>)
      returns (r: Result<Reply, Error>, replied: bool)
      modifies this
      ensures replied <==> info.Ok? && (r.Ok? || r == Err(Unique))
      ensures info.Err? ==> r == Err(info.error) && unchanged(this)
      ensures info.Ok? ==>
                var table := if old(tokens).Some? then old(tokens).value else FreshTable(netKeys);
                if selectedNet !in table then
                  r == Err(UnknownNetwork) && unchanged(this)
                else if HasSymbol(table[selectedNet], info.value.symbol) then
                  r == Err(Unique) && unchanged(this)
                else
                  && tokens == Some(table[selectedNet := table[selectedNet] + [info.value]])
                  && selectedCoin == info.value.symbol
                  && r == Ok(Reply(tokens, selectedCoin))
      ensures old(tokens).Some? && TableUnique(old(tokens).value) && tokens.Some? ==> TableUnique(tokens.value)
      ensures old(tokens).None? && tokens.Some? ==> TableUnique(tokens.value)
    {
      replied := false;
      if info.Err? {
        return Err(info.error), false;
      }
      var token := info.value;
      var table: Table;
      if tokens.None? {
        table := FreshTable(netKeys);
      } else {
        table := tokens.value;
      }
      if selectedNet !in table {
        return Err(UnknownNetwork), false;
      }
      if HasSymbol(table[selectedNet], token.symbol) {
        return Err(Unique), true;
      }
      ghost var before := table;
      table := table[selectedNet := table[selectedNet] + [token]];
      if TableUnique(before) {
        AppendKeepsUnique(before[selectedNet], token);
      }
      tokens := Some(table);
      selectedCoin := token.symbol;
      r := Ok(Reply(tokens, selectedCoin));
      replied := true;
    }

    /** rmZRCToken: the replies sent, in order, and whether the request ran
        to the end.  Asking to remove the default coin sends a first reply at
        once but goes on to filter and write. */
    method RmZRCToken(symbol: string, selectedNet: string) returns (replies: seq<Reply>, completed: bool)
      modifies this
      ensures var early := if symbol == DefaultSymbol then [Reply(old(tokens), DefaultSymbol)] else [];
              if old(tokens).None? || selectedNet !in old(tokens).value then
                !completed && replies == early && unchanged(this)
              else
                && completed
                && tokens == Some(old(tokens).value[selectedNet := Without(old(tokens).value[selectedNet], symbol)])
                && selectedCoin == DefaultSymbol
                && replies == early + [Reply(tokens, DefaultSymbol)]
      ensures old(tokens).Some? && TableUnique(old(tokens).value) && tokens.Some? ==> TableUnique(tokens.value)
    {
      replies := [];
      if symbol == DefaultSymbol {
        replies := [Reply(tokens, DefaultSymbol)];
      }
      if tokens.None? || selectedNet !in tokens.value {
        return replies, false;
      }
      var table := tokens.value;
      if TableUnique(table) {
        WithoutKeepsUnique(table[selectedNet], symbol);
      }
      table := table[selectedNet := Without(table[selectedNet], symbol)];
      tokens := Some(table);
      selectedCoin := DefaultSymbol;
      replies := replies + [Reply(tokens, DefaultSymbol)];
      completed := true;
    }
  }
}
