/** What the two TransactionService variants share: the account record, the money
    settings, the batched account lookup, the validation steps with their exact
    messages, and the per-account history record. */
module Accounts {
  import opened Outcomes
  import opened BigDecimals
  import opened JavaText
  import opened TransactionPages
  import Streams

  /** The `Account` entity: `balance` is the only field a transfer changes. */
  datatype Account = Account(id: int, clientId: int, number: string, balance: Decimal, currency: string)

  /** `MoneySettings`: the scale S of stored amounts and the rounding mode used to reach it. */
  datatype MoneySettings = MoneySettings(scale: int, roundingMode: RoundingMode)

  /** The account table, keyed by id. */
  type AccountStore = map<int, Account>

  predicate KeyedById(accounts: AccountStore) {
    forall id :: id in accounts ==> accounts[id].id == id
  }

  /** `findAllById(ids)` collected `toMap(Account::getId, identity())`: the stored
      accounts whose id was asked for, and no others. */
  function FindAllById(accounts: AccountStore, ids: set<int>): (found: AccountStore)
    ensures found.Keys == accounts.Keys * ids
    ensures forall id :: id in found ==> found[id] == accounts[id]
  {
    map id | id in accounts.Keys * ids :: accounts[id]
  }

  const ScalePrefix: string := "Amount scale must not be greater than "
  const SameAccountMessage: string := "Sender and receiver account must be different"
  const MissingPrefix: string := "Accounts with these IDs do not exist: "
  const UnsupportedPrefix: string := "Conversion from/to any of these currencies is not supported: "
  const InsufficientMessage: string := "Source account has insufficient balance"

  /** `verifyAmountScale`: an amount may carry at most `maxScale` decimal places. */
  function VerifyAmountScale(amount: Decimal, maxScale: int): (c: Check)
    ensures c.Fail? <==> amount.scale > maxScale
    ensures c.Fail? ==> c.failure == ValidationError(ScalePrefix + IntToString(maxScale))
  {
    if amount.scale > maxScale then Fail(ValidationError(ScalePrefix + IntToString(maxScale)))
    else Pass
  }

  /** The scale message names the configured limit: different limits give different messages. */
  lemma ScaleMessageNamesLimit(a: Decimal, b: Decimal, limitA: int, limitB: int)
    requires VerifyAmountScale(a, limitA).Fail? && VerifyAmountScale(b, limitB).Fail?
    requires VerifyAmountScale(a, limitA) == VerifyAmountScale(b, limitB)
    ensures limitA == limitB
  {
    var ma := ScalePrefix + IntToString(limitA);
    var mb := ScalePrefix + IntToString(limitB);
    assert ma == mb;
    assert ma[|ScalePrefix|..] == IntToString(limitA);
    assert mb[|ScalePrefix|..] == IntToString(limitB);
    IntToStringInjective(limitA, limitB);
  }

  /** `verifyAccountIds`: a transfer needs two different accounts. */
  function VerifyAccountIds(senderId: int, receiverId: int): (c: Check)
    ensures c.Fail? <==> senderId == receiverId
    ensures c.Fail? ==> c.failure == ValidationError(SameAccountMessage)
  {
    if senderId == receiverId then Fail(ValidationError(SameAccountMessage)) else Pass
  }

  /** `verifyAccountsExist`: every requested id must have been found; the message lists
      the missing ones in request order. */
  function VerifyAccountsExist(requested: seq<int>, found: AccountStore): (c: Check)
    ensures c.Pass? <==> forall id :: id in requested ==> id in found
    ensures c.Fail? ==>
      c.failure == ValidationError(MissingPrefix + BracketedList(IntsToStrings(Streams.FilterOut(requested, found.Keys))))
  {
    var missing := Streams.FilterOut(requested, found.Keys);
    if missing != [] then
      assert missing[0] in missing;
      Fail(ValidationError(MissingPrefix + BracketedList(IntsToStrings(missing))))
    else
      assert forall id :: id in requested ==> id in found;
      Pass
  }

  /** For the pair [sender, receiver] the message lists exactly the missing ids, sender first. */
  lemma MissingAccountsMessage(senderId: int, receiverId: int, found: AccountStore)
    ensures senderId !in found && receiverId !in found ==>
      VerifyAccountsExist([senderId, receiverId], found)
      == Fail(ValidationError(MissingPrefix + ("[" + IntToString(senderId) + ", " + IntToString(receiverId) + "]")))
    ensures senderId !in found && receiverId in found ==>
      VerifyAccountsExist([senderId, receiverId], found)
      == Fail(ValidationError(MissingPrefix + ("[" + IntToString(senderId) + "]")))
    ensures senderId in found && receiverId !in found ==>
      VerifyAccountsExist([senderId, receiverId], found)
      == Fail(ValidationError(MissingPrefix + ("[" + IntToString(receiverId) + "]")))
    ensures senderId in found && receiverId in found ==> VerifyAccountsExist([senderId, receiverId], found) == Pass
  {
    if senderId !in found && receiverId !in found {
      MissingBoth(senderId, receiverId, found);
    } else if senderId !in found {
      MissingOne(senderId, receiverId, found, senderId);
    } else if receiverId !in found {
      MissingOne(senderId, receiverId, found, receiverId);
    }
  }

  lemma MissingBoth(senderId: int, receiverId: int, found: AccountStore)
    requires senderId !in found && receiverId !in found
    ensures VerifyAccountsExist([senderId, receiverId], found)
         == Fail(ValidationError(MissingPrefix + ("[" + IntToString(senderId) + ", " + IntToString(receiverId) + "]")))
  {
    var s, r := IntToString(senderId), IntToString(receiverId);
    Streams.FilterOutPair(senderId, receiverId, found.Keys);
    IntsToStringsPair(senderId, receiverId);
    BracketedPair(s, r);
    MessageOfMissing(senderId, receiverId, found, [senderId, receiverId], "[" + s + ", " + r + "]");
  }

  lemma MissingOne(senderId: int, receiverId: int, found: AccountStore, missingId: int)
    requires missingId == senderId || missingId == receiverId
    requires missingId !in found && (if missingId == senderId then receiverId else senderId) in found
    ensures VerifyAccountsExist([senderId, receiverId], found)
         == Fail(ValidationError(MissingPrefix + ("[" + IntToString(missingId) + "]")))
  {
    var m := IntToString(missingId);
    Streams.FilterOutPair(senderId, receiverId, found.Keys);
    if missingId == senderId {
      assert Streams.FilterOut([senderId, receiverId], found.Keys) == [senderId] + [];
    } else {
      assert Streams.FilterOut([senderId, receiverId], found.Keys) == [] + [receiverId];
    }
    assert Streams.FilterOut([senderId, receiverId], found.Keys) == [missingId];
    IntsToStringsSingle(missingId);
    BracketedSingle(m);
    MessageOfMissing(senderId, receiverId, found, [missingId], "[" + m + "]");
  }

  /** Once the missing ids and their rendering are known, the failure is that message. */
  lemma MessageOfMissing(senderId: int, receiverId: int, found: AccountStore, missing: seq<int>, text: string)
    requires Streams.FilterOut([senderId, receiverId], found.Keys) == missing && missing != []
    requires BracketedList(IntsToStrings(missing)) == text
    ensures VerifyAccountsExist([senderId, receiverId], found) == Fail(ValidationError(MissingPrefix + text))
  {
    assert missing[0] in missing;
  }

  /** `verifyThatCurrenciesAreSupported`: every currency must be supported; the message
      lists each unsupported code once, in first-occurrence order. */
  function VerifyCurrenciesSupported(currencies: seq<string>, supported: set<string>): (c: Check)
    ensures c.Pass? <==> forall x :: x in currencies ==> x in supported
    ensures c.Fail? ==>
      c.failure == ValidationError(UnsupportedPrefix + BracketedList(Streams.Distinct(Streams.FilterOut(currencies, supported))))
  {
    var unsupported := Streams.Distinct(Streams.FilterOut(currencies, supported));
    if unsupported != [] then
      assert unsupported[0] in unsupported;
      Fail(ValidationError(UnsupportedPrefix + BracketedList(unsupported)))
    else
      assert forall x :: x in currencies ==> x in supported;
      Pass
  }

  /** For the pair [source, target] the message lists each unsupported code once, source first. */
  lemma UnsupportedCurrenciesMessage(source: string, target: string, supported: set<string>)
    ensures source !in supported && target !in supported && source != target ==>
      VerifyCurrenciesSupported([source, target], supported)
      == Fail(ValidationError(UnsupportedPrefix + ("[" + source + ", " + target + "]")))
    ensures source !in supported && target !in supported && source == target ==>
      VerifyCurrenciesSupported([source, target], supported)
      == Fail(ValidationError(UnsupportedPrefix + ("[" + source + "]")))
    ensures source !in supported && target in supported ==>
      VerifyCurrenciesSupported([source, target], supported)
      == Fail(ValidationError(UnsupportedPrefix + ("[" + source + "]")))
    ensures source in supported && target !in supported ==>
      VerifyCurrenciesSupported([source, target], supported)
      == Fail(ValidationError(UnsupportedPrefix + ("[" + target + "]")))
    ensures source in supported && target in supported ==> VerifyCurrenciesSupported([source, target], supported) == Pass
  {
    if source !in supported && target !in supported && source != target {
      UnsupportedBoth(source, target, supported);
    } else if source !in supported && target !in supported {
      UnsupportedOne(source, target, supported, source);
    } else if source !in supported {
      UnsupportedOne(source, target, supported, source);
    } else if target !in supported {
      UnsupportedOne(source, target, supported, target);
    }
  }

  lemma UnsupportedBoth(source: string, target: string, supported: set<string>)
    requires source !in supported && target !in supported && source != target
    ensures VerifyCurrenciesSupported([source, target], supported)
         == Fail(ValidationError(UnsupportedPrefix + ("[" + source + ", " + target + "]")))
  {
    Streams.FilterOutPair(source, target, supported);
    Streams.DistinctPair(source, target);
    BracketedPair(source, target);
    MessageOfUnsupported(source, target, supported, [source, target], "[" + source + ", " + target + "]");
  }

  /** One code is unsupported: the other is supported or is the same code. */
  lemma UnsupportedOne(source: string, target: string, supported: set<string>, code: string)
    requires code == source || code == target
    requires code !in supported
    requires var other := if code == source then target else source; other in supported || other == code
    ensures VerifyCurrenciesSupported([source, target], supported)
         == Fail(ValidationError(UnsupportedPrefix + ("[" + code + "]")))
  {
    Streams.FilterOutPair(source, target, supported);
    if source == target {
      assert Streams.FilterOut([source, target], supported) == [code, code];
      Streams.DistinctPair(code, code);
    } else {
      if code == source {
        assert Streams.FilterOut([source, target], supported) == [source] + [];
      } else {
        assert Streams.FilterOut([source, target], supported) == [] + [target];
      }
      assert Streams.FilterOut([source, target], supported) == [code];
      Streams.DistinctSingle(code);
    }
    BracketedSingle(code);
    MessageOfUnsupported(source, target, supported, [code], "[" + code + "]");
  }

  /** Once the unsupported codes and their rendering are known, the failure is that message. */
  lemma MessageOfUnsupported(source: string, target: string, supported: set<string>, unsupported: seq<string>, text: string)
    requires Streams.Distinct(Streams.FilterOut([source, target], supported)) == unsupported && unsupported != []
    requires BracketedList(unsupported) == text
    ensures VerifyCurrenciesSupported([source, target], supported) == Fail(ValidationError(UnsupportedPrefix + text))
  {
    assert unsupported[0] in unsupported;
  }

  /** `verifyThatBalanceIsSufficient`: the balance must cover the amount,
      `balance.subtract(amount).compareTo(ZERO) < 0` being the refusal. */
  function VerifyBalanceSufficient(balance: Decimal, amount: Decimal): (c: Check)
    ensures var m := MaxScale(balance, amount);
      c.Fail? <==> ValueAt(balance, m) < ValueAt(amount, m)
    ensures c.Fail? ==> c.failure == ValidationError(InsufficientMessage)
  {
    var rest := Subtract(balance, amount);
    assert ValueAt(rest, rest.scale) == ValueAt(balance, rest.scale) - ValueAt(amount, rest.scale);
    if Signum(rest) < 0 then Fail(ValidationError(InsufficientMessage)) else Pass
  }

  /** `TransactionHistoryRecordProjection.Direction`, seen from the queried account. */
  datatype Direction = Outbound | Inbound

  /** `AccountBaseInfoProjection`. */
  datatype AccountBaseInfo = AccountBaseInfo(id: int, number: string)

  /** `TransactionHistoryRecordProjection`: one transaction as the queried account sees it. */
  datatype HistoryRecord = HistoryRecord(
    transactionId: int,
    peerAccount: AccountBaseInfo,
    direction: Direction,
    amount: Decimal,
    currency: string,
    transactionDate: LocalDateTime)

  /** The balance after a transfer debits `amount`. */
  function Debit(account: Account, amount: Decimal): (r: Account)
    ensures r == account.(balance := r.balance)
    ensures var m := MaxScale(account.balance, amount);
      r.balance.scale == m && ValueAt(r.balance, m) == ValueAt(account.balance, m) - ValueAt(amount, m)
  {
    account.(balance := Subtract(account.balance, amount))
  }

  /** The balance after a transfer credits `amount`. */
  function Credit(account: Account, amount: Decimal): (r: Account)
    ensures r == account.(balance := r.balance)
    ensures var m := MaxScale(account.balance, amount);
      r.balance.scale == m && ValueAt(r.balance, m) == ValueAt(account.balance, m) + ValueAt(amount, m)
  {
    account.(balance := Add(account.balance, amount))
  }

  /** Every balance is at least zero. */
  predicate NoNegativeBalance(accounts: AccountStore) {
    forall id :: id in accounts ==> Signum(accounts[id].balance) >= 0
  }
}
