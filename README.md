# Account app transfers, paging and exchange-rate responses in Dafny

This project models the core of the account application, which comes in two variants: the
`oneofalternatives` tree and the `grjaznovs` tree. It covers:

- **Both `TransactionService`s.**
  - Fund transfers between two accounts. A transfer runs its validation steps in the order
    the source runs them, converts currencies where the variant does, updates two balances
    and appends a transaction.
  - The per-account transaction history, read one page at a time.
  - The page of all transactions.
- **`OffsetLimitPageRequest`.** A Spring `Pageable` addressed by row offset and limit, with
  Java 32-bit `int` arithmetic.
- **The grjaznovs `ExchangeRateHostClient`.** It is modelled as an interpreter of an abstract
  HTTP response: the error guard chain, the supported-currency listing and the single-quote
  rate.

Modules:

| module | role |
|---|---|
| `Outcomes` | `Result`/`Check` values standing for the exceptions the Java code throws, distinguished by kind |
| `JavaInt`, `JavaText`, `Streams`, `Arith` | Java `int` wrap-around and truncating division, `String.valueOf`/`join`/`trim`, the stream `filter`/`distinct` steps, and arithmetic helper lemmas |
| `BigDecimals` | `java.math.BigDecimal` as an unscaled integer plus a scale: exact `add`/`subtract`/`multiply`, and `divide`/`setScale` under all eight `RoundingMode`s |
| `OffsetLimitPaging` | `OffsetLimitPageRequest` and its navigation |
| `TransactionPages` | The transaction store's paged queries (filter, newest-first stable sort, window), Spring `Page` metadata and the `PageProjection` |
| `Accounts` | The account entity, the batched lookup and the `verify...` helpers with their exact messages; the helpers are the same in both services |
| `OneOfAlternativesTransactions` | The oneofalternatives service. `PlanTransfer` is the transfer as a function of the state it reads. The `TransactionService` class holds the account map and the transaction sequence, and its `TransferFunds` method is proved to produce the state `PlanTransfer` specifies |
| `GrjaznovsTransactions` | The grjaznovs service, built the same way. It differs from the other variant in several ways: the caller supplies the date, the currency check always runs, the amount is converted from the receiver's currency into the sender's and rescaled, there is no balance check, and the history resolves accounts with one batched lookup |
| `ExchangeRateHost` | The exchange-rate host client's response interpretation |

## Model

| member | source | states |
|---|---|---|
| OffsetLimitPaging.Of | src/main/java/com/oneofalternatives/accountapp/repository/OffsetLimitPageRequest.java:23-25 | the request carries exactly the given offset, limit and sort |
| OffsetLimitPaging.PageNumber | src/main/java/com/oneofalternatives/accountapp/repository/OffsetLimitPageRequest.java:27-30 | Java `offset / limit`: an ArithmeticException exactly when the limit is 0; the exact quotient for a non-negative offset and positive limit |
| OffsetLimitPaging.PageNumberTruncates | src/main/java/com/oneofalternatives/accountapp/repository/OffsetLimitPageRequest.java:27-30 | for every sign the page number is the quotient truncated toward zero: the remainder is smaller than the limit and has the offset's sign; MIN / -1 gives MIN |
| OffsetLimitPaging.Next | src/main/java/com/oneofalternatives/accountapp/repository/OffsetLimitPageRequest.java:48-52 | same limit and sort; the offset moves on by one limit (32-bit wrap-around in the body) |
| OffsetLimitPaging.PreviousOrFirst | src/main/java/com/oneofalternatives/accountapp/repository/OffsetLimitPageRequest.java:54-58 | same limit and sort; the offset moves back by one limit, floored at 0, and is never negative |
| OffsetLimitPaging.First | src/main/java/com/oneofalternatives/accountapp/repository/OffsetLimitPageRequest.java:60-64 | offset 0, same limit and sort |
| OffsetLimitPaging.WithPage | src/main/java/com/oneofalternatives/accountapp/repository/OffsetLimitPageRequest.java:66-70 | offset is page number × limit, same limit and sort |
| OffsetLimitPaging.HasPrevious | src/main/java/com/oneofalternatives/accountapp/repository/OffsetLimitPageRequest.java:72-75 | true exactly when the offset is positive |
| OffsetLimitPaging.PreviousOrFirstUndoesNext | src/main/java/com/oneofalternatives/accountapp/repository/OffsetLimitPageRequest.java:48-58 | from any non-negative offset, next then previousOrFirst gives back the same request, even when next overflows |
| OffsetLimitPaging.NextUndoesPreviousOrFirst | src/main/java/com/oneofalternatives/accountapp/repository/OffsetLimitPageRequest.java:48-58 | previousOrFirst then next gives back the request when a whole page lies before it |
| OffsetLimitPaging.PageNumberOfWithPage | src/main/java/com/oneofalternatives/accountapp/repository/OffsetLimitPageRequest.java:66-70 | the request built for page n reports page number n |
| OffsetLimitPaging.PageNumberOfNext | src/main/java/com/oneofalternatives/accountapp/repository/OffsetLimitPageRequest.java:27-52 | next raises the page number by exactly one while the offset does not overflow |
| OffsetLimitPaging.HasPreviousOfFirstAndNext | src/main/java/com/oneofalternatives/accountapp/repository/OffsetLimitPageRequest.java:60-75 | first has no previous page, next always has one |
| JavaInt.Div | src/main/java/com/oneofalternatives/accountapp/repository/OffsetLimitPageRequest.java:29 | Java `/`: `/ by zero` exactly for a zero divisor; the exact quotient for non-negative operands; MIN / -1 wraps to MIN |
| JavaInt.DivTruncates | src/main/java/com/oneofalternatives/accountapp/repository/OffsetLimitPageRequest.java:29 | apart from MIN / -1, the quotient is truncated toward zero for every sign: the remainder is smaller than the divisor in magnitude and has the dividend's sign |
| JavaInt.Wrap | src/main/java/com/oneofalternatives/accountapp/repository/OffsetLimitPageRequest.java:51 | the 32-bit value congruent to the exact result modulo 2^32, and the result itself when it fits |
| JavaInt.WrapAddCongruent | src/main/java/com/oneofalternatives/accountapp/repository/OffsetLimitPageRequest.java:51-57 | wrapping an intermediate sum does not change the wrapped final sum |
| TransactionPages.ToLocalDate | src/main/java/com/grjaznovs/jevgenijs/accountapp/service/TransactionService.java:151 | the day returned contains the instant |
| TransactionPages.SortNewestFirstSorts | src/main/java/com/oneofalternatives/accountapp/service/TransactionService.java:66 | the query's order is newest first and a permutation of the selected rows |
| TransactionPages.SortNewestFirstKeepsSorted | src/main/java/com/oneofalternatives/accountapp/service/TransactionService.java:66 | rows already newest first come back in their stored order |
| TransactionPages.FindPage | src/main/java/com/oneofalternatives/accountapp/repository/TransactionRepository.java:11-12 | refused exactly for a negative offset or non-positive limit; otherwise the addressed window of the matching rows newest first, at most `limit` of them, each an involved stored row, with the count of all matches as total |
| TransactionPages.Window | src/main/java/com/oneofalternatives/accountapp/repository/OffsetLimitPageRequest.java:33-40 | the rows from position `offset` on, at most `limit` of them, none when the offset is past the end |
| TransactionPages.Filter | src/main/java/com/oneofalternatives/accountapp/repository/TransactionRepository.java:11-12 | no longer than the table, only kept rows, and a sub-multiset of the table |
| TransactionPages.FilterCounts | src/main/java/com/oneofalternatives/accountapp/repository/TransactionRepository.java:11-12 | every kept row occurs in the filter as often as in the table, every other row not at all |
| TransactionPages.MatchingCountsInvolvedRows | src/main/java/com/oneofalternatives/accountapp/repository/TransactionRepository.java:11-12 | the order pages are cut from holds each involved row as often as the table, and only involved rows |
| TransactionPages.RowOnItsPage | src/main/java/com/oneofalternatives/accountapp/repository/TransactionRepository.java:11-12 | each matching row lies on the page whose offset is the multiple of the limit at or below its position |
| TransactionPages.NextPageContinues | src/main/java/com/oneofalternatives/accountapp/repository/OffsetLimitPageRequest.java:48-52 | the page of a request followed by the page of its next() is the window of twice the size |
| TransactionPages.FindAll | src/main/java/com/oneofalternatives/accountapp/service/TransactionService.java:54 | the window of the whole table newest first, with the table's size as total; refused for a bad request |
| TransactionPages.WholeTableInOnePage | src/main/java/com/oneofalternatives/accountapp/service/TransactionService.java:54 | a first page at least as large as the table holds every row, newest first |
| TransactionPages.Number | src/main/java/com/oneofalternatives/accountapp/service/TransactionService.java:98 | the page index n with n × limit ≤ offset < (n + 1) × limit |
| TransactionPages.TotalPages | src/main/java/com/oneofalternatives/accountapp/service/TransactionService.java:99 | the least page count whose pages cover all matching rows |
| TransactionPages.Project | src/main/java/com/oneofalternatives/accountapp/service/TransactionService.java:93-104 | the PageProjection metadata: offset, size, page number = offset / limit, total pages the least count whose pages cover the total, isFirst iff offset < limit, isLast iff (number + 1) × limit ≥ total |
| Accounts.FindAllById | src/main/java/com/oneofalternatives/accountapp/service/TransactionService.java:119-123 | the found accounts are exactly the requested ids that exist, each with its stored account |
| Accounts.VerifyAmountScale | src/main/java/com/oneofalternatives/accountapp/service/TransactionService.java:154-158 | fails exactly when the amount's scale exceeds S, with the message naming S |
| Accounts.ScaleMessageNamesLimit | src/main/java/com/oneofalternatives/accountapp/service/TransactionService.java:156 | the scale message determines the limit it names |
| Accounts.VerifyAccountIds | src/main/java/com/oneofalternatives/accountapp/service/TransactionService.java:160-164 | fails exactly when sender and receiver ids are equal, with the fixed message |
| Accounts.VerifyAccountsExist | src/main/java/com/oneofalternatives/accountapp/service/TransactionService.java:166-185 | passes exactly when every requested id was found; otherwise lists the missing ids in request order |
| Accounts.MissingAccountsMessage | src/main/java/com/oneofalternatives/accountapp/service/TransactionService.java:166-185 | the message is `[s, r]`, `[s]` or `[r]` for the missing ids of a transfer, and no failure when both exist |
| Accounts.VerifyCurrenciesSupported | src/main/java/com/oneofalternatives/accountapp/service/TransactionService.java:194-212 | passes exactly when every currency is supported; otherwise lists the unsupported codes once each, in order |
| Accounts.UnsupportedCurrenciesMessage | src/main/java/com/grjaznovs/jevgenijs/accountapp/service/TransactionService.java:202-219 | the message for a transfer's two codes: both, one, or one shared code listed once; no failure when both are supported |
| Accounts.VerifyBalanceSufficient | src/main/java/com/oneofalternatives/accountapp/service/TransactionService.java:214-218 | fails exactly when the balance is below the amount, with the insufficient-balance message |
| Accounts.Debit | src/main/java/com/oneofalternatives/accountapp/service/TransactionService.java:147 | only the balance changes, to the old balance minus the amount |
| Accounts.Credit | src/main/java/com/oneofalternatives/accountapp/service/TransactionService.java:148 | only the balance changes, to the old balance plus the amount |
| JavaText.IntToStringRoundTrip | src/main/java/com/oneofalternatives/accountapp/service/TransactionService.java:174 | the decimal text of an id can be read back to the id |
| JavaText.IntToStringInjective | src/main/java/com/oneofalternatives/accountapp/service/TransactionService.java:174-181 | distinct ids print differently, so the message names each missing id exactly |
| JavaText.BracketedList | src/main/java/com/oneofalternatives/accountapp/service/TransactionService.java:179-182 | the text is `[`, the parts joined by `, `, then `]` |
| Streams.FilterOut | src/main/java/com/oneofalternatives/accountapp/service/TransactionService.java:197-199 | keeps, in order, exactly the elements not in the excluded set |
| Streams.Distinct | src/main/java/com/oneofalternatives/accountapp/service/TransactionService.java:201 | keeps every element exactly once |
| Streams.FilterOutAppend | src/main/java/com/oneofalternatives/accountapp/service/TransactionService.java:197-199 | filtering keeps order: the filter of a concatenation is the concatenation of the filters |
| Streams.DistinctAfterAppend | src/main/java/com/oneofalternatives/accountapp/service/TransactionService.java:201 | distinct keeps first-occurrence order: the part of `s + t` is that of `s`, then that of `t` without what `s` held |
| BigDecimals.Add | src/main/java/com/oneofalternatives/accountapp/service/TransactionService.java:148 | exact sum at the larger scale |
| BigDecimals.Subtract | src/main/java/com/oneofalternatives/accountapp/service/TransactionService.java:147 | exact difference at the larger scale |
| BigDecimals.SubtractUndoesAdd | src/main/java/com/oneofalternatives/accountapp/service/TransactionService.java:147-148 | subtracting what was added gives back the same decimal |
| BigDecimals.Multiply | src/main/java/com/grjaznovs/jevgenijs/accountapp/integration/CurrencyConversionClientMock.java:32-36 | exact product at the sum of the scales |
| BigDecimals.Signum | src/main/java/com/oneofalternatives/accountapp/service/TransactionService.java:215 | -1, 0 or 1 as the value is negative, zero or positive |
| BigDecimals.RoundQuotient | src/main/java/com/oneofalternatives/accountapp/service/TransactionService.java:191 | fails exactly when the mode is Unnecessary and the quotient n / d is inexact, with the "Rounding necessary" arithmetic error |
| BigDecimals.RoundingBounds | src/main/java/com/oneofalternatives/accountapp/service/TransactionService.java:191 | a rounded quotient lies less than one unit from n / d, exactly on it when the division is exact, and within half a unit in the half modes |
| BigDecimals.RoundingDirection | src/main/java/com/oneofalternatives/accountapp/service/TransactionService.java:191 | Floor and Ceiling round down and up, Down and Up toward and away from zero; on a tie HalfUp goes away from zero, HalfDown toward zero and HalfEven to the even neighbour |
| BigDecimals.Divide | src/main/java/com/oneofalternatives/accountapp/service/TransactionService.java:191 | the quotient at exactly the requested scale, within the rounding mode's bound of the exact quotient and on the side the mode names (down, up, floor, ceiling, ties by the half rule); a zero divisor fails |
| BigDecimals.SetScale | src/main/java/com/grjaznovs/jevgenijs/accountapp/service/TransactionService.java:152 | the value at the requested scale: exact when the scale grows; when it shrinks, rounded on the side the mode names, failing only for Unnecessary on a lossy cut |
| BigDecimals.SetScaleToOwnScale | src/main/java/com/grjaznovs/jevgenijs/accountapp/service/TransactionService.java:152 | rescaling to the scale a number already has gives back that number |
| BigDecimals.DivideExample | src/test/java/com/oneofalternatives/accountapp/service/TransactionServiceTest.java:280-332 | 10.0 / 1.12 at scale 10, half up, is 8.9285714286 |
| BigDecimals.SetScaleExample | src/test/java/com/grjaznovs/jevgenijs/accountapp/service/TransactionServiceTest.java:256-298 | 60.0 at scale 10 is 60.0000000000 |
| OneOfAlternativesTransactions.MockClient | src/main/java/com/oneofalternatives/accountapp/integration/CurrencyConversionClientMock.java:15-23 | supports the configured set; the rate for a pair is the entry under the two codes written together, null when absent |
| OneOfAlternativesTransactions.Convert | src/main/java/com/oneofalternatives/accountapp/service/TransactionService.java:187-192 | an unsupported currency or a provider failure ends it; otherwise the amount divided by the direct rate, at scale S and within the rounding bound |
| OneOfAlternativesTransactions.SourceAmount | src/main/java/com/oneofalternatives/accountapp/service/TransactionService.java:133-136 | the transfer amount itself between accounts of one currency; otherwise the conversion, at the configured scale and with a rate from the provider |
| OneOfAlternativesTransactions.PlanTransfer | src/main/java/com/oneofalternatives/accountapp/service/TransactionService.java:107-152 | a completed transfer passed every check, debits the source amount, credits the amount and records a transaction with both updated accounts and the clock reading |
| OneOfAlternativesTransactions.ScaleCheckedFirst | src/main/java/com/oneofalternatives/accountapp/service/TransactionService.java:116 | an amount with too many decimal places is refused with the scale message, whatever the tables and provider hold |
| OneOfAlternativesTransactions.SameAccountRefused | src/main/java/com/oneofalternatives/accountapp/service/TransactionService.java:117 | a transfer to the same account is refused before any lookup |
| OneOfAlternativesTransactions.MissingAccountsRefused | src/main/java/com/oneofalternatives/accountapp/service/TransactionService.java:125 | missing accounts are refused with their ids in request order |
| OneOfAlternativesTransactions.SameCurrencyNeedsNoProvider | src/main/java/com/oneofalternatives/accountapp/service/TransactionService.java:133-136 | between accounts of one currency the outcome does not depend on the provider and the source amount is the amount |
| OneOfAlternativesTransactions.DifferentCurrenciesConvert | src/main/java/com/oneofalternatives/accountapp/service/TransactionService.java:133-136 | between currencies the source amount is the conversion, and a conversion failure is the transfer's failure |
| OneOfAlternativesTransactions.InsufficientBalanceRefused | src/main/java/com/oneofalternatives/accountapp/service/TransactionService.java:138 | refused exactly when the balance is below the source amount |
| OneOfAlternativesTransactions.TransferMovesMoney | src/main/java/com/oneofalternatives/accountapp/service/TransactionService.java:140-148 | only the balances change: the sender loses the source amount, the receiver gains the amount, and the sender is not left negative |
| OneOfAlternativesTransactions.SameCurrencyConservesMoney | src/main/java/com/oneofalternatives/accountapp/service/TransactionService.java:147-148 | within one currency the two balances add up to the same value before and after |
| OneOfAlternativesTransactions.TransferKeepsBalancesNonNegative | src/main/java/com/oneofalternatives/accountapp/service/TransactionService.java:138-148 | a completed transfer of a non-negative amount keeps every balance non-negative |
| OneOfAlternativesTransactions.ConversionExample | src/test/java/com/oneofalternatives/accountapp/service/TransactionServiceTest.java:280-332 | 10.0 USD from a EUR account at rate 1.12 costs 8.9285714286 EUR |
| OneOfAlternativesTransactions.CollectTransactionDataFromAccount | src/main/java/com/oneofalternatives/accountapp/service/TransactionService.java:220-245 | outbound iff the account sent it; then the peer is the receiver, the amount the source amount and the currency the sender's; the mirror image otherwise |
| OneOfAlternativesTransactions.ToRecord | src/main/java/com/oneofalternatives/accountapp/service/TransactionService.java:73-90 | the record keeps id and date; it is outbound iff the account sent it, and then has the receiver as peer, the source amount and the sender's currency, otherwise the sender, the transfer amount and the receiver's currency |
| OneOfAlternativesTransactions.ToRecords | src/main/java/com/oneofalternatives/accountapp/service/TransactionService.java:71-91 | one record per transaction, in page order |
| OneOfAlternativesTransactions.History | src/main/java/com/oneofalternatives/accountapp/service/TransactionService.java:57-105 | refused exactly for a bad page request; otherwise one record per transaction of the addressed page, with the page's projection metadata |
| OneOfAlternativesTransactions.HistoryOfTransfer | src/main/java/com/oneofalternatives/accountapp/service/TransactionService.java:220-245 | the sender sees an outbound record of the source amount in its currency with the receiver as peer; the receiver the mirror image |
| OneOfAlternativesTransactions.TransactionService.TransferFunds | src/main/java/com/oneofalternatives/accountapp/service/TransactionService.java:107-152 | a refusal changes nothing; otherwise the two accounts are replaced and the transaction appended, as PlanTransfer says, and the ids stay increasing |
| OneOfAlternativesTransactions.TransactionService.GetAllTransactions | src/main/java/com/oneofalternatives/accountapp/service/TransactionService.java:50-55 | one page of the whole table, newest first, with the table's size as total |
| OneOfAlternativesTransactions.TransactionService.GetTransactionHistoryByAccountId | src/main/java/com/oneofalternatives/accountapp/service/TransactionService.java:57-105 | the history of the current table; refused exactly for a bad page request |
| GrjaznovsTransactions.MockConverter | src/main/java/com/grjaznovs/jevgenijs/accountapp/integration/CurrencyConversionClientMock.java:26-37 | the configured rate times the amount; null when the rate is absent |
| GrjaznovsTransactions.SourceAmount | src/main/java/com/grjaznovs/jevgenijs/accountapp/service/TransactionService.java:149-152 | the provider's conversion from the receiver's currency into the sender's on the day, rescaled to S |
| GrjaznovsTransactions.PlanTransfer | src/main/java/com/grjaznovs/jevgenijs/accountapp/service/TransactionService.java:122-167 | a completed transfer passed the checks including the currency check, debits the rescaled conversion, credits the amount and records ids and the caller's date |
| GrjaznovsTransactions.EarlyChecksMatchOtherVariant | src/main/java/com/grjaznovs/jevgenijs/accountapp/service/TransactionService.java:130-139 | the scale, same-account and missing-account refusals match the other service's |
| GrjaznovsTransactions.SameCurrencyStillChecked | src/main/java/com/grjaznovs/jevgenijs/accountapp/service/TransactionService.java:147 | even within one currency an unsupported code is refused, listed once |
| GrjaznovsTransactions.CurrencyCheckRefuses | src/main/java/com/grjaznovs/jevgenijs/accountapp/service/TransactionService.java:141-147 | for any two codes, once the accounts are found, a failing supported-currencies call is the transfer's failure, and a failing currency check is refused with its listing of the unsupported codes |
| GrjaznovsTransactions.TransferConvertsReceiverToSender | src/main/java/com/grjaznovs/jevgenijs/accountapp/service/TransactionService.java:149-159 | after the checks the outcome is exactly the conversion, then the rescaling, then the transaction |
| GrjaznovsTransactions.OverdraftPossible | src/main/java/com/grjaznovs/jevgenijs/accountapp/service/TransactionService.java:161 | with no balance check an empty account can send and go negative |
| GrjaznovsTransactions.RegisterExample | src/test/java/com/grjaznovs/jevgenijs/accountapp/service/TransactionServiceTest.java:256-298 | 30.0 USD converted to 60.0 EUR on 2023-11-11 is recorded as 60.0000000000 |
| GrjaznovsTransactions.CollectTransactionDataFromAccount | src/main/java/com/grjaznovs/jevgenijs/accountapp/service/TransactionService.java:221-250 | null dereference exactly when the account whose currency is read is missing; otherwise the account's side of the transaction |
| GrjaznovsTransactions.ToRecord | src/main/java/com/grjaznovs/jevgenijs/accountapp/service/TransactionService.java:88-105 | succeeds exactly when both accounts were found; keeps id and date; outbound iff the account sent it, with the looked-up peer, amount and currency of that side |
| GrjaznovsTransactions.ToRecords | src/main/java/com/grjaznovs/jevgenijs/accountapp/service/TransactionService.java:86-106 | succeeds exactly when every record does; one record per transaction in order |
| GrjaznovsTransactions.ReferencedIds | src/main/java/com/grjaznovs/jevgenijs/accountapp/service/TransactionService.java:75-78 | exactly the sender and receiver ids of the page |
| GrjaznovsTransactions.History | src/main/java/com/grjaznovs/jevgenijs/accountapp/service/TransactionService.java:61-120 | the records of the addressed page, each built from the one batched lookup, with the page's projection metadata |
| GrjaznovsTransactions.HistoryReadsOnlyReferencedAccounts | src/main/java/com/grjaznovs/jevgenijs/accountapp/service/TransactionService.java:75-84 | two account tables that agree on the page's accounts give the same history |
| GrjaznovsTransactions.HistoryAvailable | src/main/java/com/grjaznovs/jevgenijs/accountapp/service/TransactionService.java:80-106 | while every transaction names existing accounts, the history fails exactly for a bad page request |
| GrjaznovsTransactions.HistoryOfTransfer | src/main/java/com/grjaznovs/jevgenijs/accountapp/service/TransactionService.java:221-250 | each party sees the transfer from its own side |
| GrjaznovsTransactions.TransactionService.TransferFunds | src/main/java/com/grjaznovs/jevgenijs/accountapp/service/TransactionService.java:122-167 | a refusal changes nothing; otherwise the state PlanTransfer gives, keeping ids increasing and all references to existing accounts |
| GrjaznovsTransactions.TransactionService.GetAllTransactions | src/main/java/com/grjaznovs/jevgenijs/accountapp/service/TransactionService.java:54-59 | one page of the whole table, newest first, with the table's size as total |
| GrjaznovsTransactions.TransactionService.GetTransactionHistoryByAccountId | src/main/java/com/grjaznovs/jevgenijs/accountapp/service/TransactionService.java:61-120 | the history of the current tables; with all references resolvable it fails exactly for a bad page request |
| ExchangeRateHost.StatusText | src/main/java/com/grjaznovs/jevgenijs/accountapp/integration/ExchangeRateHostClient.java:119 | the status text starts with the numeric code |
| ExchangeRateHost.FailureMessage | src/main/java/com/grjaznovs/jevgenijs/accountapp/integration/ExchangeRateHostClient.java:131-138 | the message starts with the call's prefix and `. Reason code: ` |
| ExchangeRateHost.IsFailure | src/main/java/com/grjaznovs/jevgenijs/accountapp/integration/ExchangeRateHostClient.java:144-147 | null dereference when `success` is absent; otherwise failure iff the flag reads false |
| ExchangeRateHost.AsBooleanReadings | src/main/java/com/grjaznovs/jevgenijs/accountapp/integration/ExchangeRateHostClient.java:144-146 | `asBoolean()` on the flag: padded `true` text is true, other texts, zero, null and containers are false, non-zero integers true |
| ExchangeRateHost.HandleError | src/main/java/com/grjaznovs/jevgenijs/accountapp/integration/ExchangeRateHostClient.java:113-142 | non-2xx status first, then missing body, then the success flag; passes the body exactly when all three are fine; a reported failure gives the full `<call>. Reason code: <code>. Reason description: <info>` message; an absent `success` or `error` is a null dereference |
| ExchangeRateHost.SupportedCurrencies | src/main/java/com/grjaznovs/jevgenijs/accountapp/integration/ExchangeRateHostClient.java:40-77 | guard errors propagate; an empty listing fails; otherwise exactly the listed codes that are ISO codes |
| ExchangeRateHost.SuccessfulListing | src/main/java/com/grjaznovs/jevgenijs/accountapp/integration/ExchangeRateHostClient.java:40-77 | a successful non-empty listing yields the intersection of its codes with the ISO codes |
| ExchangeRateHost.DirectRate | src/main/java/com/grjaznovs/jevgenijs/accountapp/integration/ExchangeRateHostClient.java:79-111 | guard errors propagate; more than one quote and no quote fail with their messages; otherwise the value of the single quote |
| ExchangeRateHost.StatusCheckedFirst | src/main/java/com/grjaznovs/jevgenijs/accountapp/integration/ExchangeRateHostClient.java:118-120 | a non-2xx response fails the same whatever its body |
| ExchangeRateHost.FailureMessageNamesCall | src/main/java/com/grjaznovs/jevgenijs/accountapp/integration/ExchangeRateHostClient.java:128-138 | the list call and the quotes call produce different failure messages |
| ExchangeRateHost.OnlyUnknownCodesGiveNoCurrencies | src/main/java/com/grjaznovs/jevgenijs/accountapp/integration/ExchangeRateHostClient.java:62-76 | a non-empty listing of only unknown codes gives an empty set, not an error |
| ExchangeRateHost.ListFailureExample | src/test/java/com/grjaznovs/jevgenijs/accountapp/integration/ExchangeRateHostClientTest.java:43-71 | a failed listing with code 104 gives the prefixed reason-code message |
| ExchangeRateHost.SupportedCurrenciesExample | src/test/java/com/grjaznovs/jevgenijs/accountapp/integration/ExchangeRateHostClientTest.java:73-101 | BOB, BRL, BSD and BTC give BOB, BRL and BSD |
| ExchangeRateHost.QuotesFailureExample | src/test/java/com/grjaznovs/jevgenijs/accountapp/integration/ExchangeRateHostClientTest.java:103-141 | a failed quote request with code 201 gives the quotes-prefixed message |
| ExchangeRateHost.DirectRateExample | src/test/java/com/grjaznovs/jevgenijs/accountapp/integration/ExchangeRateHostClientTest.java:143-178 | the single quote EURUSD 1.0952 is the rate |
| ExchangeRateHost.TwoQuotesRefused | src/main/java/com/grjaznovs/jevgenijs/accountapp/integration/ExchangeRateHostClient.java:104-106 | two quotes are refused with the more-than-one-quote message |

## Left out

- HTTP, Spring and JPA are not modelled. This covers the `RestTemplate` call, routing, `@Transactional` atomicity and concurrent requests. Each service operation is one atomic step over the state it reads.
- The clock: `LocalDateTime.now()` in the oneofalternatives `transferFunds` is the parameter `now`.
- The identity columns are modelled as a counter `nextTransactionId` kept by the service. Account ids are whatever the account map holds.
- The database does not fix an order among transactions with equal dates. The model keeps their stored order, so its sort is stable.
- The store rejects a page request with a negative offset or a non-positive limit. The model does not reproduce the exact exception (Hibernate's, or the division by zero a zero limit causes). It uses the single failure `PersistenceFailure`.
- The `precision = 16, scale = 10` of the amount columns is not applied when a transaction is stored.
- Spring computes `getTotalPages` through `double`. The model computes the exact ceiling, which agrees as long as totals stay below 2^53. The size-0 case of `getTotalPages` cannot occur, because the store refuses a zero limit first.
- The `OneOfAlternativesTransactions.Transaction` holds both accounts as updated by the transfer. In JPA these are live references. The history reads only the id, number and currency of an account, and a transfer never changes those.
- The grjaznovs `OffsetLimitPageRequest` and `PageProjection` are not part of this model's source files. The grjaznovs service is modelled with the oneofalternatives versions of both.
- The grjaznovs `CurrencyConversionClient` declares two things that `ExchangeRateHostClient` does not implement as declared: `convert(amount, from, to, date)` and `Set<String>`. The client implements `getDirectRate` and returns `Set<Currency>`. Each file is modelled as written: the service over the `Converter` interface, the client on its own. The two are not joined.
- `Currency.getAvailableCurrencies()` is the parameter `isoCodes`, and a `Currency` is its code.
- Jackson's `treeToValue` is not modelled. A body whose JSON types do not fit the projection raises a `CurrencyExchangeClientError` wrapping Jackson's message, and that case is left out: the body's fields arrive already typed.
- A floating-point JSON number under `"success"` is not modelled.
- `FundTransferValidationError` (oneofalternatives) and `FundTransferException` (grjaznovs) are both `ValidationError`.
- `BigDecimal` division by zero is the kind `DivisionByZero`; the JDK's message text is not modelled. A scale is an unbounded integer, so the 32-bit scale overflow of `BigDecimal` is not modelled. No `MathContext` is used by the source.
- `OffsetLimitPageRequest.getPageSize`, `getOffset` and `getSort` are plain field reads (`OffsetLimitPaging.PageSize`, `OffsetLimitPaging.Offset`, the `sort` field) and carry no contract.
- OffsetLimitPaging.Next: the contract states the new offset only when `offset + limit` fits in an `int`. Overflow wraps in the body. `PreviousOrFirstUndoesNext` covers the overflowing case.
- OffsetLimitPaging.WithPage: the contract states the new offset only when the product fits in an `int`. Overflow wraps in the body.
- OffsetLimitPaging.PageNumber: its own contract gives the quotient for a non-negative offset and a positive limit. Truncation for every sign is stated by `OffsetLimitPaging.PageNumberTruncates`, and for `JavaInt.Div` by `JavaInt.DivTruncates`.
- The grjaznovs `RestTemplate` is built in `CurrencyConversionIntegrationConfig` without the non-throwing error handler. There a 4xx or 5xx status is thrown by `RestTemplate` before `handleError` runs. The model follows `handleError`'s own status check, and that wiring is not modelled.
- OneOfAlternativesTransactions.Convert: the contract bounds the rounding error. Each mode's direction is stated by `BigDecimals.RoundingDirection`.
- The `AccountService`s, controllers, exception resolvers, configuration, settings records and test factories are not modelled. The currency conversion mocks appear only as rate oracles (`MockClient`, `MockConverter`).
