/** The `oneofalternatives` TransactionService: fund transfers between two accounts,
    converting through a direct exchange rate when the currencies differ, and the
    per-account transaction history. The service keeps the account table and the
    transaction table; a transfer changes two balances and appends one transaction. */
module OneOfAlternativesTransactions {
  import opened Outcomes
  import opened BigDecimals
  import opened JavaText
  import JavaInt
  import opened OffsetLimitPaging
  import opened TransactionPages
  import opened Accounts

  /** The `Transaction` entity. Its sender and receiver are the account entities
      themselves, so it holds them as they are once the transfer has updated them. */
  datatype Transaction = Transaction(
    id: int,
    senderAccount: Account,
    receiverAccount: Account,
    sourceAmount: Decimal,
    targetAmount: Decimal,
    transactionDate: LocalDateTime)

  /** `CurrencyConversionClient`: the supported currencies and the direct rate between two of
      them (units of `to` per unit of `from`). Either call may throw, so each yields a Result. */
  datatype ConversionClient = ConversionClient(
    supportedCurrencies: Result<set<string>>,
    directRate: (string, string) -> Result<Decimal>)

  /** `CurrencyConversionClientMock`: rates keyed by the two codes written one after the other;
      an absent rate is `null`, which the division then dereferences. */
  function MockClient(supported: set<string>, rates: map<string, Decimal>): (c: ConversionClient)
    ensures c.supportedCurrencies == Ok(supported)
    ensures forall from, to :: c.directRate(from, to) == if from + to in rates then Ok(rates[from + to]) else Err(NullReference)
  {
    ConversionClient(Ok(supported), (from, to) => if from + to in rates then Ok(rates[from + to]) else Err(NullReference))
  }

  /** `convert`: both currencies must be supported; the amount in `target` is divided by the
      direct rate `source -> target` and rounded to the configured scale. */
  function Convert(amount: Decimal, source: string, target: string, client: ConversionClient, settings: MoneySettings)
    : (r: Result<Decimal>)
    ensures client.supportedCurrencies.Err? ==> r == Err(client.supportedCurrencies.failure)
    ensures client.supportedCurrencies.Ok? ==>
      var check := VerifyCurrenciesSupported([source, target], client.supportedCurrencies.value);
      check.Fail? ==> r == Err(check.failure)
    ensures r.Ok? ==> source in client.supportedCurrencies.value && target in client.supportedCurrencies.value
    ensures r.Ok? ==> client.directRate(source, target).Ok? && r.value.scale == settings.scale
    ensures r.Ok? ==>
      var (n, d) := DivisionTerms(amount, client.directRate(source, target).value, settings.scale);
      d != 0 && Abs(Excess(r.value.unscaled, n, d)) < Abs(d) &&
      (settings.roundingMode.IsHalfMode() ==> 2 * Abs(Excess(r.value.unscaled, n, d)) <= Abs(d))
  {
    var supported :- client.supportedCurrencies;
    :- VerifyCurrenciesSupported([source, target], supported);
    var rate :- client.directRate(source, target);
    Divide(amount, rate, settings.scale, settings.roundingMode)
  }

  /** The amount taken from the sender: the transfer amount itself between accounts of one
      currency, its converted value otherwise. */
  function SourceAmount(amount: Decimal, sender: Account, receiver: Account, client: ConversionClient, settings: MoneySettings)
    : (r: Result<Decimal>)
    ensures sender.currency == receiver.currency ==> r == Ok(amount)
    ensures sender.currency != receiver.currency ==>
              r == Convert(amount, sender.currency, receiver.currency, client, settings)
    ensures sender.currency != receiver.currency && r.Ok? ==>
              r.value.scale == settings.scale
              && client.directRate(sender.currency, receiver.currency).Ok?
  {
    if sender.currency == receiver.currency then Ok(amount)
    else Convert(amount, sender.currency, receiver.currency, client, settings)
  }

  /** A transfer that passed every check: both accounts as updated, and the new transaction. */
  datatype Transfer = Transfer(sender: Account, receiver: Account, transaction: Transaction)

  /** `transferFunds` as a function of the state it reads: the checks in their order, then
      the debit, the credit and the transaction stamped with `now` and id `transactionId`. */
  function PlanTransfer(accounts: AccountStore, client: ConversionClient, settings: MoneySettings,
                        senderId: int, receiverId: int, amount: Decimal, now: LocalDateTime, transactionId: int)
    : (r: Result<Transfer>)
    ensures r.Ok? ==>
      && amount.scale <= settings.scale && senderId != receiverId
      && senderId in accounts && receiverId in accounts
    ensures r.Ok? ==>
      var t := r.value.transaction;
      && SourceAmount(amount, accounts[senderId], accounts[receiverId], client, settings) == Ok(t.sourceAmount)
      && r.value.sender == Debit(accounts[senderId], t.sourceAmount)
      && r.value.receiver == Credit(accounts[receiverId], amount)
      && t == Transaction(transactionId, r.value.sender, r.value.receiver, t.sourceAmount, amount, now)
  {
    var ids := {senderId, receiverId};
    :- VerifyAmountScale(amount, settings.scale);
    :- VerifyAccountIds(senderId, receiverId);
    var accountsById := FindAllById(accounts, ids);
    :- VerifyAccountsExist([senderId, receiverId], accountsById);
    var sender := accountsById[senderId];
    var receiver := accountsById[receiverId];
    var sourceAmount :- SourceAmount(amount, sender, receiver, client, settings);
    :- VerifyBalanceSufficient(sender.balance, sourceAmount);
    var sender' := Debit(sender, sourceAmount);
    var receiver' := Credit(receiver, amount);
    Ok(Transfer(sender', receiver', Transaction(transactionId, sender', receiver', sourceAmount, amount, now)))
  }

  /** The scale check comes first: whatever the tables and the rate provider hold,
      an amount with too many decimal places is refused with the same message. */
  lemma ScaleCheckedFirst(
    accounts: AccountStore, client: ConversionClient, settings: MoneySettings,
    senderId: int, receiverId: int, amount: Decimal, now: LocalDateTime, transactionId: int)
    requires amount.scale > settings.scale
    ensures PlanTransfer(accounts, client, settings, senderId, receiverId, amount, now, transactionId)
         == Err(ValidationError(ScalePrefix + IntToString(settings.scale)))
  {
  }

  /** A transfer to the sending account itself is refused before any table or the rate
      provider is consulted. */
  lemma SameAccountRefused(
    accounts: AccountStore, client: ConversionClient, settings: MoneySettings,
    accountId: int, amount: Decimal, now: LocalDateTime, transactionId: int)
    requires amount.scale <= settings.scale
    ensures PlanTransfer(accounts, client, settings, accountId, accountId, amount, now, transactionId)
         == Err(ValidationError(SameAccountMessage))
  {
  }

  /** Missing accounts are reported in request order, sender first, before the rate
      provider is consulted. */
  lemma MissingAccountsRefused(
    accounts: AccountStore, client: ConversionClient, settings: MoneySettings,
    senderId: int, receiverId: int, amount: Decimal, now: LocalDateTime, transactionId: int)
    requires amount.scale <= settings.scale && senderId != receiverId
    ensures var r := PlanTransfer(accounts, client, settings, senderId, receiverId, amount, now, transactionId);
      var s, t := IntToString(senderId), IntToString(receiverId);
      && (senderId !in accounts && receiverId !in accounts ==> r == Err(ValidationError(MissingPrefix + ("[" + s + ", " + t + "]"))))
      && (senderId !in accounts && receiverId in accounts ==> r == Err(ValidationError(MissingPrefix + ("[" + s + "]"))))
      && (senderId in accounts && receiverId !in accounts ==> r == Err(ValidationError(MissingPrefix + ("[" + t + "]"))))
  {
    var found := FindAllById(accounts, {senderId, receiverId});
    assert senderId in found <==> senderId in accounts;
    assert receiverId in found <==> receiverId in accounts;
    MissingAccountsMessage(senderId, receiverId, found);
  }

  /** Between accounts of one currency the amount moves unchanged and the rate provider is
      never consulted: any two providers give the same outcome. */
  lemma SameCurrencyNeedsNoProvider(
    accounts: AccountStore, client1: ConversionClient, client2: ConversionClient, settings: MoneySettings,
    senderId: int, receiverId: int, amount: Decimal, now: LocalDateTime, transactionId: int)
    requires senderId in accounts && receiverId in accounts
    requires accounts[senderId].currency == accounts[receiverId].currency
    ensures PlanTransfer(accounts, client1, settings, senderId, receiverId, amount, now, transactionId)
         == PlanTransfer(accounts, client2, settings, senderId, receiverId, amount, now, transactionId)
    ensures var r := PlanTransfer(accounts, client1, settings, senderId, receiverId, amount, now, transactionId);
      r.Ok? ==> r.value.transaction.sourceAmount == amount
  {
    var found := FindAllById(accounts, {senderId, receiverId});
    if senderId != receiverId && senderId in found && receiverId in found {
      assert found[senderId] == accounts[senderId];
      assert found[receiverId] == accounts[receiverId];
    }
  }

  /** Between accounts of different currencies the sender pays the amount divided by the
      direct rate, rounded to the configured scale; a provider failure or an unsupported
      currency ends the transfer. */
  lemma DifferentCurrenciesConvert(
    accounts: AccountStore, client: ConversionClient, settings: MoneySettings,
    senderId: int, receiverId: int, amount: Decimal, now: LocalDateTime, transactionId: int)
    requires amount.scale <= settings.scale && senderId != receiverId
    requires senderId in accounts && receiverId in accounts
    requires accounts[senderId].currency != accounts[receiverId].currency
    ensures var r := PlanTransfer(accounts, client, settings, senderId, receiverId, amount, now, transactionId);
      var converted := Convert(amount, accounts[senderId].currency, accounts[receiverId].currency, client, settings);
      && (converted.Err? ==> r == Err(converted.failure))
      && (r.Ok? ==> converted == Ok(r.value.transaction.sourceAmount))
  {
    var found := FindAllById(accounts, {senderId, receiverId});
    assert found[senderId] == accounts[senderId] && found[receiverId] == accounts[receiverId];
  }

  /** Once the source amount is known, the transfer is refused exactly when the sender's
      balance is below it, and then with the insufficient-balance message. */
  lemma InsufficientBalanceRefused(
    accounts: AccountStore, client: ConversionClient, settings: MoneySettings,
    senderId: int, receiverId: int, amount: Decimal, now: LocalDateTime, transactionId: int)
    requires amount.scale <= settings.scale && senderId != receiverId
    requires senderId in accounts && receiverId in accounts
    requires SourceAmount(amount, accounts[senderId], accounts[receiverId], client, settings).Ok?
    ensures var source := SourceAmount(amount, accounts[senderId], accounts[receiverId], client, settings).value;
      var balance := accounts[senderId].balance;
      var m := MaxScale(balance, source);
      var r := PlanTransfer(accounts, client, settings, senderId, receiverId, amount, now, transactionId);
      && (r.Err? <==> ValueAt(balance, m) < ValueAt(source, m))
      && (r.Err? ==> r.failure == ValidationError(InsufficientMessage))
  {
    var found := FindAllById(accounts, {senderId, receiverId});
    assert found[senderId] == accounts[senderId] && found[receiverId] == accounts[receiverId];
  }

  /** A completed transfer takes the source amount from the sender and adds the transfer
      amount to the receiver, at the finer of the two scales; nothing else of either
      account changes, and the transaction's target amount is the transfer amount. */
  lemma TransferMovesMoney(
    accounts: AccountStore, client: ConversionClient, settings: MoneySettings,
    senderId: int, receiverId: int, amount: Decimal, now: LocalDateTime, transactionId: int)
    requires PlanTransfer(accounts, client, settings, senderId, receiverId, amount, now, transactionId).Ok?
    ensures var t := PlanTransfer(accounts, client, settings, senderId, receiverId, amount, now, transactionId).value;
      var (s, r) := (accounts[senderId], accounts[receiverId]);
      var source := t.transaction.sourceAmount;
      && t.sender == s.(balance := t.sender.balance)
      && t.receiver == r.(balance := t.receiver.balance)
      && ValueAt(t.sender.balance, MaxScale(s.balance, source)) == ValueAt(s.balance, MaxScale(s.balance, source)) - ValueAt(source, MaxScale(s.balance, source))
      && ValueAt(t.receiver.balance, MaxScale(r.balance, amount)) == ValueAt(r.balance, MaxScale(r.balance, amount)) + ValueAt(amount, MaxScale(r.balance, amount))
      && t.transaction.targetAmount == amount
      && Signum(t.sender.balance) >= 0
  {
    var t := PlanTransfer(accounts, client, settings, senderId, receiverId, amount, now, transactionId).value;
    var s := accounts[senderId];
    var source := t.transaction.sourceAmount;
    var found := FindAllById(accounts, {senderId, receiverId});
    assert found[senderId] == s;
    assert VerifyBalanceSufficient(s.balance, source).Pass?;
  }

  /** Within one currency a transfer moves money without creating or destroying any: the two
      balances add up to the same value before and after. */
  lemma SameCurrencyConservesMoney(
    accounts: AccountStore, client: ConversionClient, settings: MoneySettings,
    senderId: int, receiverId: int, amount: Decimal, now: LocalDateTime, transactionId: int, scale: int)
    requires PlanTransfer(accounts, client, settings, senderId, receiverId, amount, now, transactionId).Ok?
    requires accounts[senderId].currency == accounts[receiverId].currency
    requires scale >= accounts[senderId].balance.scale && scale >= accounts[receiverId].balance.scale && scale >= amount.scale
    ensures var t := PlanTransfer(accounts, client, settings, senderId, receiverId, amount, now, transactionId).value;
      ValueAt(t.sender.balance, scale) + ValueAt(t.receiver.balance, scale)
      == ValueAt(accounts[senderId].balance, scale) + ValueAt(accounts[receiverId].balance, scale)
  {
    var t := PlanTransfer(accounts, client, settings, senderId, receiverId, amount, now, transactionId).value;
    assert t.transaction.sourceAmount == amount;
    var s, r := accounts[senderId].balance, accounts[receiverId].balance;
    assert ValueAt(t.sender.balance, scale) == ValueAt(s, scale) - ValueAt(amount, scale) by {
      assert t.sender.balance == Subtract(s, amount);
    }
    assert ValueAt(t.receiver.balance, scale) == ValueAt(r, scale) + ValueAt(amount, scale) by {
      assert t.receiver.balance == Add(r, amount);
    }
  }

  /** The balance check keeps every balance non-negative: if no balance is negative and the
      amount is not negative, none is after a completed transfer. */
  lemma TransferKeepsBalancesNonNegative(
    accounts: AccountStore, client: ConversionClient, settings: MoneySettings,
    senderId: int, receiverId: int, amount: Decimal, now: LocalDateTime, transactionId: int)
    requires NoNegativeBalance(accounts) && Signum(amount) >= 0
    requires PlanTransfer(accounts, client, settings, senderId, receiverId, amount, now, transactionId).Ok?
    ensures var t := PlanTransfer(accounts, client, settings, senderId, receiverId, amount, now, transactionId).value;
      NoNegativeBalance(accounts[senderId := t.sender][receiverId := t.receiver])
  {
    var t := PlanTransfer(accounts, client, settings, senderId, receiverId, amount, now, transactionId).value;
    TransferMovesMoney(accounts, client, settings, senderId, receiverId, amount, now, transactionId);
    var r := accounts[receiverId].balance;
    var m := MaxScale(r, amount);
    assert Signum(r) >= 0;
    NonNegativeAtFinerScale(r, m);
    NonNegativeAtFinerScale(amount, m);
    assert ValueAt(t.receiver.balance, m) >= 0;
  }

  lemma NonNegativeAtFinerScale(x: Decimal, s: int)
    requires Signum(x) >= 0 && s >= x.scale
    ensures ValueAt(x, s) >= 0
  {
    ValueAtFiner(x, x.scale, s);
  }

  /** The mock provider of the service's test: 10.0 USD for a EUR account at a rate of 1.12
      costs the sender 8.9285714286 EUR at scale 10, rounding half up. */
  lemma ConversionExample()
    ensures var accounts := map[
        1 := Account(1, 10, "ACC-0001", Decimal(10000, 2), "EUR"),
        2 := Account(2, 11, "ACC-0002", Decimal(10000, 2), "USD")];
      var client := MockClient({"EUR", "USD", "AUD"}, map["EURUSD" := Decimal(112, 2)]);
      var r := PlanTransfer(accounts, client, MoneySettings(10, HalfUp), 1, 2, Decimal(100, 1), LocalDateTime(0), 777);
      r.Ok? && r.value.transaction.sourceAmount == Decimal(89285714286, 10)
  {
    var eur := Account(1, 10, "ACC-0001", Decimal(10000, 2), "EUR");
    var usd := Account(2, 11, "ACC-0002", Decimal(10000, 2), "USD");
    var accounts := map[1 := eur, 2 := usd];
    var supported := {"EUR", "USD", "AUD"};
    var client := MockClient(supported, map["EURUSD" := Decimal(112, 2)]);
    var settings := MoneySettings(10, HalfUp);
    var source := Decimal(89285714286, 10);
    var found := FindAllById(accounts, {1, 2});
    assert found == accounts;
    MissingAccountsMessage(1, 2, found);
    UnsupportedCurrenciesMessage("EUR", "USD", supported);
    ConvertExample();
    assert SourceAmount(Decimal(100, 1), eur, usd, client, settings) == Ok(source);
    ConvertedAmountCovered();
  }

  /** A balance of 100.00 covers the converted 8.9285714286. */
  lemma ConvertedAmountCovered()
    ensures VerifyBalanceSufficient(Decimal(10000, 2), Decimal(89285714286, 10)) == Pass
  {
    assert ValueAt(Decimal(10000, 2), 10) == 1000000000000 by {
      assert Pow10(8) == 100000000;
    }
  }

  /** 10.0 EUR at the EURUSD rate 1.12, divided at scale 10 with HALF_UP. */
  lemma ConvertExample()
    ensures Convert(Decimal(100, 1), "EUR", "USD", MockClient({"EUR", "USD", "AUD"}, map["EURUSD" := Decimal(112, 2)]),
                    MoneySettings(10, HalfUp))
         == Ok(Decimal(89285714286, 10))
  {
    var client := MockClient({"EUR", "USD", "AUD"}, map["EURUSD" := Decimal(112, 2)]);
    assert "EUR" + "USD" == "EURUSD";
    assert client.directRate("EUR", "USD") == Ok(Decimal(112, 2));
    DivideExample();
  }

  /** `collectTransactionDataFromAccount`: the account's side of a transaction. */
  datatype TransactionData = TransactionData(direction: Direction, account: Account, amount: Decimal, currency: string)

  function CollectTransactionDataFromAccount(accountId: int, tx: Transaction): (d: TransactionData)
    ensures d.direction == Outbound <==> tx.senderAccount.id == accountId
    ensures d.account == if d.direction == Outbound then tx.receiverAccount else tx.senderAccount
    ensures d.amount == if d.direction == Outbound then tx.sourceAmount else tx.targetAmount
    ensures d.currency == if d.direction == Outbound then tx.senderAccount.currency else tx.receiverAccount.currency
  {
    var direction := if tx.senderAccount.id == accountId then Outbound else Inbound;
    var account := if direction == Outbound then tx.receiverAccount else tx.senderAccount;
    var amount := if direction == Outbound then tx.sourceAmount else tx.targetAmount;
    var currency := if direction == Outbound then tx.senderAccount.currency else tx.receiverAccount.currency;
    TransactionData(direction, account, amount, currency)
  }

  /** One history record: the transaction as `accountId` sees it. */
  function ToRecord(accountId: int, tx: Transaction): (r: HistoryRecord)
    ensures r.transactionId == tx.id && r.transactionDate == tx.transactionDate
    ensures r.direction == Outbound <==> tx.senderAccount.id == accountId
    ensures var peer := if r.direction == Outbound then tx.receiverAccount else tx.senderAccount;
            r.peerAccount == AccountBaseInfo(peer.id, peer.number)
    ensures r.amount == if r.direction == Outbound then tx.sourceAmount else tx.targetAmount
    ensures r.currency == if r.direction == Outbound then tx.senderAccount.currency else tx.receiverAccount.currency
  {
    var data := CollectTransactionDataFromAccount(accountId, tx);
    HistoryRecord(tx.id, AccountBaseInfo(data.account.id, data.account.number), data.direction,
                  data.amount, data.currency, tx.transactionDate)
  }

  /** The mapping over a page: one record per transaction, in page order. */
  function ToRecords(accountId: int, txs: seq<Transaction>): (r: seq<HistoryRecord>)
    ensures |r| == |txs|
    ensures forall i :: 0 <= i < |txs| ==> r[i] == ToRecord(accountId, txs[i])
  {
    if txs == [] then [] else [ToRecord(accountId, txs[0])] + ToRecords(accountId, txs[1..])
  }

  /** The store filter of the history query: the account sent or received the transaction. */
  function Involves(accountId: int): Transaction -> bool {
    (tx: Transaction) => tx.senderAccount.id == accountId || tx.receiverAccount.id == accountId
  }

  function Date(tx: Transaction): LocalDateTime { tx.transactionDate }

  /** `getTransactionHistoryByAccountId` over the transaction table: the addressed page of
      the account's transactions, newest first, each seen from the account, with the page's
      metadata. */
  function History(transactions: seq<Transaction>, accountId: int, offset: JavaInt.Int32, limit: JavaInt.Int32)
    : (r: Result<PageProjection<HistoryRecord>>)
    ensures r.Err? <==> offset < 0 || limit <= 0
    ensures r.Ok? ==>
      var page := FindPage(transactions, Involves(accountId), Date, Of(offset, limit, ByDateDescending));
      && page.Ok?
      && |r.value.content| == |page.value.content| <= limit
      && (forall i :: 0 <= i < |r.value.content| ==> r.value.content[i] == ToRecord(accountId, page.value.content[i]))
      && r.value.offset == offset && r.value.pageSize == limit
      && r.value.totalElements == page.value.totalElements
      && r.value == Project(page.value, r.value.content)
  {
    var page :- FindPage(transactions, Involves(accountId), Date, Of(offset, limit, ByDateDescending));
    Ok(Project(page, ToRecords(accountId, page.content)))
  }

  /** Each party of a transfer sees it from its own side: the sender an outbound record
      of the source amount in its own currency with the receiver as peer, the receiver an
      inbound record of the transfer amount in its own currency with the sender as peer. */
  lemma HistoryOfTransfer(
    accounts: AccountStore, client: ConversionClient, settings: MoneySettings,
    senderId: int, receiverId: int, amount: Decimal, now: LocalDateTime, transactionId: int)
    requires KeyedById(accounts)
    requires PlanTransfer(accounts, client, settings, senderId, receiverId, amount, now, transactionId).Ok?
    ensures var t := PlanTransfer(accounts, client, settings, senderId, receiverId, amount, now, transactionId).value;
      var out := ToRecord(senderId, t.transaction);
      var in_ := ToRecord(receiverId, t.transaction);
      && out.direction == Outbound && in_.direction == Inbound
      && out.peerAccount == AccountBaseInfo(receiverId, accounts[receiverId].number)
      && in_.peerAccount == AccountBaseInfo(senderId, accounts[senderId].number)
      && out.amount == t.transaction.sourceAmount && in_.amount == amount
      && out.currency == accounts[senderId].currency && in_.currency == accounts[receiverId].currency
      && Involves(senderId)(t.transaction) && Involves(receiverId)(t.transaction)
  {
  }

  /** The transaction ids are increasing and all below `next`. */
  predicate IdsBelow(transactions: seq<Transaction>, next: int) {
    && (forall i, j :: 0 <= i < j < |transactions| ==> transactions[i].id < transactions[j].id)
    && (forall i :: 0 <= i < |transactions| ==> transactions[i].id < next)
  }

  /** Appending a transaction numbered `next` keeps the ids increasing, now below `next + 1`. */
  lemma IdsBelowAppend(transactions: seq<Transaction>, next: int, tx: Transaction)
    requires IdsBelow(transactions, next) && tx.id == next
    ensures IdsBelow(transactions + [tx], next + 1)
  {
    var appended := transactions + [tx];
    assert forall i :: 0 <= i < |transactions| ==> appended[i] == transactions[i];
  }

  /** The service with its two tables. Transaction ids are handed out in increasing order,
      as the identity column does. */
  class TransactionService {
    const client: ConversionClient
    const settings: MoneySettings
    var accounts: AccountStore
    var transactions: seq<Transaction>
    var nextTransactionId: int

    ghost predicate Valid()
      reads this
    {
      && KeyedById(accounts)
      && IdsBelow(transactions, nextTransactionId)
    }

    constructor (client: ConversionClient, settings: MoneySettings, accounts: AccountStore)
      requires KeyedById(accounts)
      ensures Valid()
      ensures this.client == client && this.settings == settings
      ensures this.accounts == accounts && transactions == [] && nextTransactionId == 1
    {
      this.client := client;
      this.settings := settings;
      this.accounts := accounts;
      transactions := [];
      nextTransactionId := 1;
    }

    /** `transferFunds(senderAccountId, receiverAccountId, amount)`, with `now` the clock
        reading the source takes first. On a refusal nothing changes; otherwise the two
        accounts are replaced by their updated versions and the transaction is appended. */
    method TransferFunds(senderId: int, receiverId: int, amount: Decimal, now: LocalDateTime)
      returns (r: Result<Transaction>)
      requires Valid()
      modifies this
      ensures Valid()
      ensures var plan := PlanTransfer(old(accounts), client, settings, senderId, receiverId, amount, now, old(nextTransactionId));
        && (plan.Err? ==> r == Err(plan.failure))
        && (plan.Ok? ==> r == Ok(plan.value.transaction))
        && (plan.Err? ==> accounts == old(accounts) && transactions == old(transactions)
                          && nextTransactionId == old(nextTransactionId))
        && (plan.Ok? ==>
              && accounts == old(accounts)[senderId := plan.value.sender][receiverId := plan.value.receiver]
              && transactions == old(transactions) + [plan.value.transaction]
              && nextTransactionId == old(nextTransactionId) + 1)
    {
      var check := VerifyAmountScale(amount, settings.scale);
      if check.Fail? { return Err(check.failure); }
      check := VerifyAccountIds(senderId, receiverId);
      if check.Fail? { return Err(check.failure); }

      var accountsById := FindAllById(accounts, {senderId, receiverId});
      check := VerifyAccountsExist([senderId, receiverId], accountsById);
      if check.Fail? { return Err(check.failure); }

      var senderAccount := accountsById[senderId];
      var receiverAccount := accountsById[receiverId];
      assert senderAccount == accounts[senderId] && receiverAccount == accounts[receiverId];

      var sourceAmount := amount;
      if senderAccount.currency != receiverAccount.currency {
        var converted := Convert(amount, senderAccount.currency, receiverAccount.currency, client, settings);
        if converted.Err? { return Err(converted.failure); }
        sourceAmount := converted.value;
      }

      check := VerifyBalanceSufficient(senderAccount.balance, sourceAmount);
      if check.Fail? { return Err(check.failure); }

      senderAccount := Debit(senderAccount, sourceAmount);
      receiverAccount := Credit(receiverAccount, amount);
      var transaction := Transaction(nextTransactionId, senderAccount, receiverAccount, sourceAmount, amount, now);
      IdsBelowAppend(transactions, nextTransactionId, transaction);

      accounts := accounts[senderId := senderAccount][receiverId := receiverAccount];
      transactions := transactions + [transaction];
      nextTransactionId := nextTransactionId + 1;
      r := Ok(transaction);
    }

    /** `getAllTransactions(offset, limit)`: one page of the whole table, newest first. */
    function GetAllTransactions(offset: JavaInt.Int32, limit: JavaInt.Int32): (r: Result<Page<Transaction>>)
      reads this
      ensures r.Err? <==> offset < 0 || limit <= 0
      ensures r.Ok? ==> r.value.totalElements == |transactions|
      ensures r.Ok? ==> r.value.content == Window(SortNewestFirst(transactions, Date), offset, limit)
    {
      FindAll(transactions, Date, Of(offset, limit, ByDateDescending))
    }

    /** `getTransactionHistoryByAccountId(accountId, offset, limit)`. */
    function GetTransactionHistoryByAccountId(accountId: int, offset: JavaInt.Int32, limit: JavaInt.Int32)
      : (r: Result<PageProjection<HistoryRecord>>)
      reads this
      ensures r == History(transactions, accountId, offset, limit)
      ensures r.Err? <==> offset < 0 || limit <= 0
    {
      History(transactions, accountId, offset, limit)
    }
  }
}
