/** The `grjaznovs` TransactionService: the same transfer engine as the other variant with
    different choices. The caller supplies the transaction date, the currency check and the
    conversion always run, the converted amount is rescaled to the configured scale, there is
    no balance check, transactions hold plain account ids, and the history resolves the
    accounts of a page with one batched lookup. */
module GrjaznovsTransactions {
  import opened Outcomes
  import opened BigDecimals
  import opened JavaText
  import JavaInt
  import opened OffsetLimitPaging
  import opened TransactionPages
  import opened Accounts
  import OneOf = OneOfAlternativesTransactions

  /** The `Transaction` entity: sender and receiver by id. */
  datatype Transaction = Transaction(
    id: int,
    senderAccountId: int,
    receiverAccountId: int,
    sourceAmount: Decimal,
    targetAmount: Decimal,
    transactionDate: LocalDateTime)

  /** `CurrencyConversionClient` of this tree: the supported codes and
      `convert(amount, sourceCurrency, targetCurrency, date)`. Either call may throw. */
  datatype Converter = Converter(
    supportedCurrencies: Result<set<string>>,
    convert: (Decimal, string, string, LocalDate) -> Result<Decimal>)

  /** `CurrencyConversionClientMock`: the rate keyed by the two codes, times the amount;
      an absent rate is `null` and the multiplication dereferences it. */
  function MockConverter(supported: set<string>, rates: map<string, Decimal>): (c: Converter)
    ensures c.supportedCurrencies == Ok(supported)
    ensures forall amount, source, target, date ::
      c.convert(amount, source, target, date)
      == if source + target in rates then Ok(Multiply(rates[source + target], amount)) else Err(NullReference)
  {
    Converter(Ok(supported), (amount, source, target, date) =>
      if source + target in rates then Ok(Multiply(rates[source + target], amount)) else Err(NullReference))
  }

  /** The amount taken from the sender: the transfer amount converted from the receiver's
      currency into the sender's on the day of the transaction, then brought to the scale S. */
  function SourceAmount(amount: Decimal, sender: Account, receiver: Account, date: LocalDateTime,
                        converter: Converter, settings: MoneySettings): (r: Result<Decimal>)
    ensures var converted := converter.convert(amount, receiver.currency, sender.currency, ToLocalDate(date));
      && (converted.Err? ==> r == Err(converted.failure))
      && (converted.Ok? ==> r == SetScale(converted.value, settings.scale, settings.roundingMode))
    ensures r.Ok? ==> r.value.scale == settings.scale
  {
    var converted :- converter.convert(amount, receiver.currency, sender.currency, ToLocalDate(date));
    SetScale(converted, settings.scale, settings.roundingMode)
  }

  datatype Transfer = Transfer(sender: Account, receiver: Account, transaction: Transaction)

  /** `transferFunds(senderAccountId, receiverAccountId, amount, transactionDate)` as a function
      of the state it reads. */
  function PlanTransfer(accounts: AccountStore, converter: Converter, settings: MoneySettings,
                        senderId: int, receiverId: int, amount: Decimal, date: LocalDateTime, transactionId: int)
    : (r: Result<Transfer>)
    ensures r.Ok? ==>
      && amount.scale <= settings.scale && senderId != receiverId
      && senderId in accounts && receiverId in accounts
      && converter.supportedCurrencies.Ok?
      && accounts[senderId].currency in converter.supportedCurrencies.value
      && accounts[receiverId].currency in converter.supportedCurrencies.value
    ensures r.Ok? ==>
      var t := r.value.transaction;
      && SourceAmount(amount, accounts[senderId], accounts[receiverId], date, converter, settings) == Ok(t.sourceAmount)
      && r.value.sender == Debit(accounts[senderId], t.sourceAmount)
      && r.value.receiver == Credit(accounts[receiverId], amount)
      && t == Transaction(transactionId, senderId, receiverId, t.sourceAmount, amount, date)
  {
    var ids := {senderId, receiverId};
    :- VerifyAmountScale(amount, settings.scale);
    :- VerifyAccountIds(senderId, receiverId);
    var accountsById := FindAllById(accounts, ids);
    :- VerifyAccountsExist([senderId, receiverId], accountsById);
    var sender := accountsById[senderId];
    var receiver := accountsById[receiverId];
    var supported :- converter.supportedCurrencies;
    :- VerifyCurrenciesSupported([sender.currency, receiver.currency], supported);
    var sourceAmount :- SourceAmount(amount, sender, receiver, date, converter, settings);
    Ok(Transfer(Debit(sender, sourceAmount), Credit(receiver, amount),
                Transaction(transactionId, senderId, receiverId, sourceAmount, amount, date)))
  }

  /** The checks before the rate provider is consulted are those of the other variant, in the
      same order and with the same messages: where one of them refuses, both variants refuse
      alike, whatever their providers. */
  lemma EarlyChecksMatchOtherVariant(
    accounts: AccountStore, converter: Converter, client: OneOf.ConversionClient, settings: MoneySettings,
    senderId: int, receiverId: int, amount: Decimal, date: LocalDateTime, transactionId: int)
    requires amount.scale > settings.scale || senderId == receiverId
          || senderId !in accounts || receiverId !in accounts
    ensures var r := PlanTransfer(accounts, converter, settings, senderId, receiverId, amount, date, transactionId);
      var other := OneOf.PlanTransfer(accounts, client, settings, senderId, receiverId, amount, date, transactionId);
      r.Err? && other.Err? && r.failure == other.failure
  {
    var found := FindAllById(accounts, {senderId, receiverId});
    assert senderId in found <==> senderId in accounts;
    assert receiverId in found <==> receiverId in accounts;
  }

  /** The currency check runs on every transfer, even between accounts of one currency:
      an unsupported shared currency is reported once. */
  lemma SameCurrencyStillChecked(
    accounts: AccountStore, converter: Converter, settings: MoneySettings,
    senderId: int, receiverId: int, amount: Decimal, date: LocalDateTime, transactionId: int)
    requires amount.scale <= settings.scale && senderId != receiverId
    requires senderId in accounts && receiverId in accounts
    requires accounts[senderId].currency == accounts[receiverId].currency
    requires converter.supportedCurrencies.Ok?
    requires accounts[senderId].currency !in converter.supportedCurrencies.value
    ensures PlanTransfer(accounts, converter, settings, senderId, receiverId, amount, date, transactionId)
         == Err(ValidationError(UnsupportedPrefix + ("[" + accounts[senderId].currency + "]")))
  {
    var found := FindAllById(accounts, {senderId, receiverId});
    assert found[senderId] == accounts[senderId] && found[receiverId] == accounts[receiverId];
    var c := accounts[senderId].currency;
    UnsupportedCurrenciesMessage(c, c, converter.supportedCurrencies.value);
  }

  /** Between any two codes the currency check runs once the accounts are found: a failing
      `getSupportedCurrencies` call is the transfer's failure, and so is the refusal listing
      the unsupported codes. */
  lemma CurrencyCheckRefuses(
    accounts: AccountStore, converter: Converter, settings: MoneySettings,
    senderId: int, receiverId: int, amount: Decimal, date: LocalDateTime, transactionId: int)
    requires amount.scale <= settings.scale && senderId != receiverId
    requires senderId in accounts && receiverId in accounts
    ensures var r := PlanTransfer(accounts, converter, settings, senderId, receiverId, amount, date, transactionId);
      && (converter.supportedCurrencies.Err? ==> r == Err(converter.supportedCurrencies.failure))
      && (converter.supportedCurrencies.Ok? ==>
            var check := VerifyCurrenciesSupported([accounts[senderId].currency, accounts[receiverId].currency],
                                                   converter.supportedCurrencies.value);
            check.Fail? ==> r == Err(check.failure))
  {
    var found := FindAllById(accounts, {senderId, receiverId});
    assert found[senderId] == accounts[senderId] && found[receiverId] == accounts[receiverId];
  }

  /** Once every check has passed, the sender pays the provider's conversion of the amount from
      the receiver's currency into its own, on the transaction's day, at scale S; the
      transaction copies the ids and the caller's date. */
  lemma TransferConvertsReceiverToSender(
    accounts: AccountStore, converter: Converter, settings: MoneySettings,
    senderId: int, receiverId: int, amount: Decimal, date: LocalDateTime, transactionId: int)
    requires amount.scale <= settings.scale && senderId != receiverId
    requires senderId in accounts && receiverId in accounts
    requires converter.supportedCurrencies.Ok?
    requires accounts[senderId].currency in converter.supportedCurrencies.value
    requires accounts[receiverId].currency in converter.supportedCurrencies.value
    ensures var r := PlanTransfer(accounts, converter, settings, senderId, receiverId, amount, date, transactionId);
      var (s, t) := (accounts[senderId], accounts[receiverId]);
      var converted := converter.convert(amount, t.currency, s.currency, ToLocalDate(date));
      && (converted.Err? ==> r == Err(converted.failure))
      && (converted.Ok? ==>
            var scaled := SetScale(converted.value, settings.scale, settings.roundingMode);
            && (scaled.Err? ==> r == Err(scaled.failure))
            && (scaled.Ok? ==>
                  r == Ok(PlanTransfer(accounts, converter, settings, senderId, receiverId, amount, date, transactionId).value)
                  && r.value.transaction == Transaction(transactionId, senderId, receiverId, scaled.value, amount, date)))
  {
    var found := FindAllById(accounts, {senderId, receiverId});
    assert found[senderId] == accounts[senderId] && found[receiverId] == accounts[receiverId];
    var s, t := accounts[senderId], accounts[receiverId];
    UnsupportedCurrenciesMessage(s.currency, t.currency, converter.supportedCurrencies.value);
  }

  /** Without a balance check a transfer can overdraw the sender: an empty account sending one
      unit to an account of the same currency is left at minus one. */
  lemma OverdraftPossible()
    ensures var accounts := map[
        1 := Account(1, 10, "ACC-0001", Decimal(0, 2), "EUR"),
        2 := Account(2, 11, "ACC-0002", Decimal(0, 2), "EUR")];
      var converter := MockConverter({"EUR"}, map["EUREUR" := Decimal(1, 0)]);
      var r := PlanTransfer(accounts, converter, MoneySettings(2, HalfUp), 1, 2, Decimal(100, 2), LocalDateTime(0), 1);
      r.Ok? && Signum(r.value.sender.balance) < 0
  {
    var s := Account(1, 10, "ACC-0001", Decimal(0, 2), "EUR");
    var t := Account(2, 11, "ACC-0002", Decimal(0, 2), "EUR");
    var accounts := map[1 := s, 2 := t];
    var converter := MockConverter({"EUR"}, map["EUREUR" := Decimal(1, 0)]);
    var settings := MoneySettings(2, HalfUp);
    var amount := Decimal(100, 2);
    assert FindAllById(accounts, {1, 2}) == accounts;
    assert "EUR" + "EUR" == "EUREUR";
    var converted := converter.convert(amount, "EUR", "EUR", ToLocalDate(LocalDateTime(0)));
    assert converted == Ok(Multiply(Decimal(1, 0), amount));
    assert Multiply(Decimal(1, 0), amount) == amount;
    SetScaleToOwnScale(amount, HalfUp);
    TransferConvertsReceiverToSender(accounts, converter, settings, 1, 2, amount, LocalDateTime(0), 1);
    var r := PlanTransfer(accounts, converter, settings, 1, 2, amount, LocalDateTime(0), 1);
    assert r.Ok? && r.value.transaction.sourceAmount == amount;
    assert r.value.sender.balance == Subtract(Decimal(0, 2), amount);
  }

  /** The service's own example: 30.0 USD to a USD account from a EUR account, converted to
      60.0 EUR on 2023-11-11, is recorded as 60.0000000000 at scale 10. */
  lemma RegisterExample()
    ensures var accounts := map[
        1 := Account(1, 10, "ACC-0001", Decimal(10000, 2), "EUR"),
        2 := Account(2, 11, "ACC-0002", Decimal(10000, 2), "USD")];
      var converter := Converter(Ok({"EUR", "USD", "AUD"}), (a, s, t, d) =>
        if a == Decimal(300, 1) && s == "USD" && t == "EUR" && d == LocalDate(19672)
        then Ok(Decimal(600, 1)) else Err(NullReference));
      var date := LocalDateTime(1699701060000000000);
      var r := PlanTransfer(accounts, converter, MoneySettings(10, HalfUp), 1, 2, Decimal(300, 1), date, 777);
      r.Ok? && r.value.transaction == Transaction(777, 1, 2, Decimal(600000000000, 10), Decimal(300, 1), date)
  {
    var s := Account(1, 10, "ACC-0001", Decimal(10000, 2), "EUR");
    var t := Account(2, 11, "ACC-0002", Decimal(10000, 2), "USD");
    var accounts := map[1 := s, 2 := t];
    var converter := Converter(Ok({"EUR", "USD", "AUD"}), (a, s, t, d) =>
        if a == Decimal(300, 1) && s == "USD" && t == "EUR" && d == LocalDate(19672)
        then Ok(Decimal(600, 1)) else Err(NullReference));
    var date := LocalDateTime(1699701060000000000);
    assert ToLocalDate(date) == LocalDate(19672);
    assert FindAllById(accounts, {1, 2}) == accounts;
    TransferConvertsReceiverToSender(accounts, converter, MoneySettings(10, HalfUp), 1, 2, Decimal(300, 1), date, 777);
    SetScaleExample();
  }

  /** `collectTransactionDataFromAccount`: the account's side of a transaction, with the
      accounts taken from the batched lookup. A missing account is `null`: the peer is kept
      as it is and only its later use fails, while the currency is read at once. */
  datatype TransactionData = TransactionData(direction: Direction, account: Option<Account>, amount: Decimal, currency: string)

  function Lookup(accountsById: AccountStore, id: int): Option<Account> {
    if id in accountsById then Some(accountsById[id]) else None
  }

  function CollectTransactionDataFromAccount(accountId: int, tx: Transaction, accountsById: AccountStore)
    : (r: Result<TransactionData>)
    ensures r.Err? <==>
      (if tx.senderAccountId == accountId then tx.senderAccountId else tx.receiverAccountId) !in accountsById
    ensures r.Err? ==> r.failure == NullReference
    ensures r.Ok? ==> (r.value.direction == Outbound <==> tx.senderAccountId == accountId)
    ensures r.Ok? && r.value.direction == Outbound ==>
      r.value.account == Lookup(accountsById, tx.receiverAccountId) && r.value.amount == tx.sourceAmount
      && r.value.currency == accountsById[tx.senderAccountId].currency
    ensures r.Ok? && r.value.direction == Inbound ==>
      r.value.account == Lookup(accountsById, tx.senderAccountId) && r.value.amount == tx.targetAmount
      && r.value.currency == accountsById[tx.receiverAccountId].currency
  {
    var direction := if tx.senderAccountId == accountId then Outbound else Inbound;
    var senderAccount := Lookup(accountsById, tx.senderAccountId);
    var receiverAccount := Lookup(accountsById, tx.receiverAccountId);
    var account := if direction == Outbound then receiverAccount else senderAccount;
    var amount := if direction == Outbound then tx.sourceAmount else tx.targetAmount;
    var currencyOwner := if direction == Outbound then senderAccount else receiverAccount;
    if currencyOwner.None? then Err(NullReference)
    else Ok(TransactionData(direction, account, amount, currencyOwner.value.currency))
  }

  /** One history record; both accounts of the transaction must have been found. */
  function ToRecord(accountId: int, tx: Transaction, accountsById: AccountStore): (r: Result<HistoryRecord>)
    ensures r.Ok? <==> tx.senderAccountId in accountsById && tx.receiverAccountId in accountsById
    ensures r.Err? ==> r.failure == NullReference
    ensures r.Ok? ==> r.value.transactionId == tx.id && r.value.transactionDate == tx.transactionDate
    ensures r.Ok? ==> (r.value.direction == Outbound <==> tx.senderAccountId == accountId)
    ensures r.Ok? && r.value.direction == Outbound ==>
      var peer := accountsById[tx.receiverAccountId];
      r.value.peerAccount == AccountBaseInfo(peer.id, peer.number)
      && r.value.amount == tx.sourceAmount && r.value.currency == accountsById[tx.senderAccountId].currency
    ensures r.Ok? && r.value.direction == Inbound ==>
      var peer := accountsById[tx.senderAccountId];
      r.value.peerAccount == AccountBaseInfo(peer.id, peer.number)
      && r.value.amount == tx.targetAmount && r.value.currency == accountsById[tx.receiverAccountId].currency
  {
    var data :- CollectTransactionDataFromAccount(accountId, tx, accountsById);
    if data.account.None? then Err(NullReference)
    else
      Ok(HistoryRecord(tx.id, AccountBaseInfo(data.account.value.id, data.account.value.number), data.direction,
                       data.amount, data.currency, tx.transactionDate))
  }

  /** The mapping over a page, in page order; the first record that fails ends it. */
  function ToRecords(accountId: int, txs: seq<Transaction>, accountsById: AccountStore)
    : (r: Result<seq<HistoryRecord>>)
    ensures r.Ok? <==> forall i :: 0 <= i < |txs| ==> ToRecord(accountId, txs[i], accountsById).Ok?
    ensures r.Err? ==> r.failure == NullReference
    ensures r.Ok? ==> |r.value| == |txs|
    ensures r.Ok? ==> forall i :: 0 <= i < |txs| ==> Ok(r.value[i]) == ToRecord(accountId, txs[i], accountsById)
  {
    if txs == [] then Ok([])
    else
      var first :- ToRecord(accountId, txs[0], accountsById);
      var rest :- ToRecords(accountId, txs[1..], accountsById);
      assert forall i :: 1 <= i < |txs| ==> txs[i] == txs[1..][i - 1];
      Ok([first] + rest)
  }

  /** The sender and receiver ids of a page: the one set the history looks up. */
  function ReferencedIds(txs: seq<Transaction>): (ids: set<int>)
    ensures forall i :: 0 <= i < |txs| ==> txs[i].senderAccountId in ids && txs[i].receiverAccountId in ids
    ensures forall id :: id in ids ==> exists i :: 0 <= i < |txs| && (txs[i].senderAccountId == id || txs[i].receiverAccountId == id)
  {
    if txs == [] then {}
    else
      var rest := ReferencedIds(txs[1..]);
      assert forall i :: 1 <= i < |txs| ==> txs[i] == txs[1..][i - 1];
      assert forall id :: id in rest ==>
          exists i :: 0 <= i < |txs| && (txs[i].senderAccountId == id || txs[i].receiverAccountId == id) by {
        forall id | id in rest
          ensures exists i :: 0 <= i < |txs| && (txs[i].senderAccountId == id || txs[i].receiverAccountId == id)
        {
          var j :| 0 <= j < |txs[1..]| && (txs[1..][j].senderAccountId == id || txs[1..][j].receiverAccountId == id);
          assert txs[j + 1] == txs[1..][j];
        }
      }
      {txs[0].senderAccountId, txs[0].receiverAccountId} + rest
  }

  function Involves(accountId: int): Transaction -> bool {
    (tx: Transaction) => tx.senderAccountId == accountId || tx.receiverAccountId == accountId
  }

  function Date(tx: Transaction): LocalDateTime { tx.transactionDate }

  /** The page `getTransactionHistoryByAccountId` reads from the transaction table. */
  function HistoryPage(transactions: seq<Transaction>, accountId: int, offset: JavaInt.Int32, limit: JavaInt.Int32)
    : Result<Page<Transaction>>
  {
    FindPage(transactions, Involves(accountId), Date, Of(offset, limit, ByDateDescending))
  }

  /** `getTransactionHistoryByAccountId` over both tables: the page of the account's
      transactions, one lookup of all accounts the page names, then one record per
      transaction. */
  function History(transactions: seq<Transaction>, accounts: AccountStore, accountId: int,
                   offset: JavaInt.Int32, limit: JavaInt.Int32)
    : (r: Result<PageProjection<HistoryRecord>>)
    ensures r.Ok? ==> HistoryPage(transactions, accountId, offset, limit).Ok?
    ensures r.Ok? ==>
      var content := HistoryPage(transactions, accountId, offset, limit).value.content;
      var found := FindAllById(accounts, ReferencedIds(content));
      && |r.value.content| == |content|
      && (forall i :: 0 <= i < |content| ==> Ok(r.value.content[i]) == ToRecord(accountId, content[i], found))
    ensures r.Ok? ==> r.value.offset == offset && r.value.pageSize == limit
    ensures r.Ok? ==> r.value == Project(HistoryPage(transactions, accountId, offset, limit).value, r.value.content)
  {
    var page :- HistoryPage(transactions, accountId, offset, limit);
    var accountsById := FindAllById(accounts, ReferencedIds(page.content));
    var records :- ToRecords(accountId, page.content, accountsById);
    Ok(Project(page, records))
  }

  /** The history reads the account table through its single batched lookup only: two account
      tables that agree on the accounts the page names give the same history. */
  lemma HistoryReadsOnlyReferencedAccounts(
    transactions: seq<Transaction>, accounts1: AccountStore, accounts2: AccountStore,
    accountId: int, offset: JavaInt.Int32, limit: JavaInt.Int32)
    requires var page := HistoryPage(transactions, accountId, offset, limit);
      page.Ok? ==> FindAllById(accounts1, ReferencedIds(page.value.content)) == FindAllById(accounts2, ReferencedIds(page.value.content))
    ensures History(transactions, accounts1, accountId, offset, limit) == History(transactions, accounts2, accountId, offset, limit)
  {
  }

  /** Every transaction names accounts of the table. */
  predicate ReferencesExist(transactions: seq<Transaction>, accounts: AccountStore) {
    forall i :: 0 <= i < |transactions| ==>
      transactions[i].senderAccountId in accounts && transactions[i].receiverAccountId in accounts
  }

  /** The transaction ids are increasing and all below `next`. */
  predicate IdsBelow(transactions: seq<Transaction>, next: int) {
    && (forall i, j :: 0 <= i < j < |transactions| ==> transactions[i].id < transactions[j].id)
    && (forall i :: 0 <= i < |transactions| ==> transactions[i].id < next)
  }

  /** Writing back two existing accounts and appending the next transaction between them
      keeps the store keyed by id, every reference resolvable and the ids increasing. */
  lemma TransferKeepsInvariant(accounts: AccountStore, transactions: seq<Transaction>, next: int,
                               sender: Account, receiver: Account, tx: Transaction)
    requires KeyedById(accounts) && ReferencesExist(transactions, accounts) && IdsBelow(transactions, next)
    requires sender.id in accounts && receiver.id in accounts
    requires tx.id == next && tx.senderAccountId == sender.id && tx.receiverAccountId == receiver.id
    ensures var after := accounts[sender.id := sender][receiver.id := receiver];
      && KeyedById(after)
      && ReferencesExist(transactions + [tx], after)
      && IdsBelow(transactions + [tx], next + 1)
  {
    var after := accounts[sender.id := sender][receiver.id := receiver];
    assert after.Keys == accounts.Keys;
    var appended := transactions + [tx];
    forall i | 0 <= i < |appended|
      ensures appended[i].senderAccountId in after && appended[i].receiverAccountId in after
    {
      if i < |transactions| {
        assert appended[i] == transactions[i];
      }
    }
  }

  /** While every transaction names existing accounts, the history only fails for a page
      request the store refuses. */
  lemma HistoryAvailable(
    transactions: seq<Transaction>, accounts: AccountStore, accountId: int, offset: JavaInt.Int32, limit: JavaInt.Int32)
    requires ReferencesExist(transactions, accounts)
    ensures History(transactions, accounts, accountId, offset, limit).Ok? <==> offset >= 0 && limit > 0
  {
    var page := HistoryPage(transactions, accountId, offset, limit);
    if page.Ok? {
      var content := page.value.content;
      var found := FindAllById(accounts, ReferencedIds(content));
      forall i | 0 <= i < |content| ensures ToRecord(accountId, content[i], found).Ok? {
        assert content[i] in multiset(transactions);
        var k :| 0 <= k < |transactions| && transactions[k] == content[i];
      }
    }
  }

  /** Read from each side, a transfer is outbound for the sender, with the receiver as peer and
      the source amount in the sender's currency, and inbound for the receiver, with the sender
      as peer and the transfer amount in the receiver's currency. */
  lemma HistoryOfTransfer(
    accounts: AccountStore, converter: Converter, settings: MoneySettings,
    senderId: int, receiverId: int, amount: Decimal, date: LocalDateTime, transactionId: int)
    requires KeyedById(accounts)
    requires PlanTransfer(accounts, converter, settings, senderId, receiverId, amount, date, transactionId).Ok?
    ensures var t := PlanTransfer(accounts, converter, settings, senderId, receiverId, amount, date, transactionId).value;
      var found := FindAllById(accounts, ReferencedIds([t.transaction]));
      var out := ToRecord(senderId, t.transaction, found);
      var in_ := ToRecord(receiverId, t.transaction, found);
      && out.Ok? && in_.Ok?
      && out.value.direction == Outbound && in_.value.direction == Inbound
      && out.value.peerAccount == AccountBaseInfo(receiverId, accounts[receiverId].number)
      && in_.value.peerAccount == AccountBaseInfo(senderId, accounts[senderId].number)
      && out.value.amount == t.transaction.sourceAmount && in_.value.amount == amount
      && out.value.currency == accounts[senderId].currency && in_.value.currency == accounts[receiverId].currency
  {
    var t := PlanTransfer(accounts, converter, settings, senderId, receiverId, amount, date, transactionId).value;
    var ids := ReferencedIds([t.transaction]);
    assert senderId in ids && receiverId in ids;
  }

  /** The service with its two tables. */
  class TransactionService {
    const converter: Converter
    const settings: MoneySettings
    var accounts: AccountStore
    var transactions: seq<Transaction>
    var nextTransactionId: int

    ghost predicate Valid()
      reads this
    {
      && KeyedById(accounts)
      && ReferencesExist(transactions, accounts)
      && IdsBelow(transactions, nextTransactionId)
    }

    constructor (converter: Converter, settings: MoneySettings, accounts: AccountStore)
      requires KeyedById(accounts)
      ensures Valid()
      ensures this.converter == converter && this.settings == settings
      ensures this.accounts == accounts && transactions == [] && nextTransactionId == 1
    {
      this.converter := converter;
      this.settings := settings;
      this.accounts := accounts;
      transactions := [];
      nextTransactionId := 1;
    }

    /** `transferFunds(senderAccountId, receiverAccountId, amount, transactionDate)`. On a
        refusal nothing changes; otherwise the two accounts are replaced by their updated
        versions and the transaction is appended. */
    method TransferFunds(senderId: int, receiverId: int, amount: Decimal, date: LocalDateTime)
      returns (r: Result<Transaction>)
      requires Valid()
      modifies this
      ensures Valid()
      ensures var plan := PlanTransfer(old(accounts), converter, settings, senderId, receiverId, amount, date, old(nextTransactionId));
        && (plan.Err? ==> r == Err(plan.failure))
        && (plan.Ok? ==> r == Ok(plan.value.transaction))
        && (plan.Err? ==> accounts == old(accounts) && transactions == old(transactions)
                          && nextTransactionId == old(nextTransactionId))
        && (plan.Ok? ==>
              && accounts == old(accounts)[senderId := plan.value.sender][receiverId := plan.value.receiver]
              && transactions == old(transactions) + [plan.value.transaction]
              && nextTransactionId == old(nextTransactionId) + 1)
    {
      ghost var plan := PlanTransfer(accounts, converter, settings, senderId, receiverId, amount, date, nextTransactionId);
      var check := VerifyAmountScale(amount, settings.scale);
      if check.Fail? { return Err(check.failure); }
      check := VerifyAccountIds(senderId, receiverId);
      if check.Fail? { return Err(check.failure); }

      var accountsById := FindAllById(accounts, {senderId, receiverId});
      check := VerifyAccountsExist([senderId, receiverId], accountsById);
      if check.Fail? { return Err(check.failure); }

      var senderAccount := accountsById[senderId];
      var receiverAccount := accountsById[receiverId];
      assert senderAccount == accounts[senderId] && receiverAccount == accounts[receiverId];

      if converter.supportedCurrencies.Err? { return Err(converter.supportedCurrencies.failure); }
      check := VerifyCurrenciesSupported([senderAccount.currency, receiverAccount.currency], converter.supportedCurrencies.value);
      if check.Fail? { return Err(check.failure); }

      var scaled := SourceAmount(amount, senderAccount, receiverAccount, date, converter, settings);
      if scaled.Err? { return Err(scaled.failure); }
      var sourceAmount := scaled.value;

      var transaction := Transaction(nextTransactionId, senderId, receiverId, sourceAmount, amount, date);
      senderAccount := Debit(senderAccount, sourceAmount);
      receiverAccount := Credit(receiverAccount, amount);
      assert plan == Ok(Transfer(senderAccount, receiverAccount, transaction));

      TransferKeepsInvariant(accounts, transactions, nextTransactionId, senderAccount, receiverAccount, transaction);
      accounts := accounts[senderId := senderAccount][receiverId := receiverAccount];
      transactions := transactions + [transaction];
      nextTransactionId := nextTransactionId + 1;
      r := Ok(transaction);
    }

    /** `getAllTransactions(offset, limit)`: one page of the whole table, newest first. */
    function GetAllTransactions(offset: JavaInt.Int32, limit: JavaInt.Int32): (r: Result<Page<Transaction>>)
      reads this
      ensures r.Err? <==> offset < 0 || limit <= 0
      ensures r.Ok? ==> r.value.totalElements == |transactions|
      ensures r.Ok? ==> r.value.content == Window(SortNewestFirst(transactions, Date), offset, limit)
    {
      FindAll(transactions, Date, Of(offset, limit, ByDateDescending))
    }

    /** `getTransactionHistoryByAccountId(accountId, offset, limit)`; while every transaction
        names existing accounts, as in a valid service, it fails only for a page request the
        store refuses. */
    function GetTransactionHistoryByAccountId(accountId: int, offset: JavaInt.Int32, limit: JavaInt.Int32)
      : (r: Result<PageProjection<HistoryRecord>>)
      reads this
      ensures r == History(transactions, accounts, accountId, offset, limit)
      ensures ReferencesExist(transactions, accounts) ==> (r.Ok? <==> offset >= 0 && limit > 0)
    {
      var r := History(transactions, accounts, accountId, offset, limit);
      assert ReferencesExist(transactions, accounts) ==> (r.Ok? <==> offset >= 0 && limit > 0) by {
        if ReferencesExist(transactions, accounts) {
          HistoryAvailable(transactions, accounts, accountId, offset, limit);
        }
      }
      r
    }
  }
}
