# Forwarding bot core, modelled in Dafny

A model of `start.js` from the example bot for the Obyte ledger. The bot takes payments and forwards them. A paired device types an amount and a destination address. The bot issues a fresh deposit address and answers with a payment link. When a payment to that deposit address arrives, the bot acknowledges it. Once the payment is stable, the bot forwards the deposit, less a fee of 1000 bytes, to the destination. Forwarded outputs are batched into payments of at most `MAX_OUTPUTS_PER_PAYMENT_MESSAGE - 1` outputs.

The model has three parts:

- the bot's three maps: `assocDevice2Amount`, `assocDeposit2Device` and `assocDeposit2Address`;
- the three handlers that read and update those maps: the `text` handler, the `new_my_transactions` handler and the `my_transactions_became_stable` handler;
- the two database queries those handlers run.

Files:

- `text.dfy`: `trim`, the `/^\d+$/` test, `parseInt` on digits, and integer-to-string conversion.
- `replies.dfy`: the constants (minimum 10000, default link amount 10000, fee 1000), the reply texts, and the payment link together with the wallet's reading of it.
- `chunking.dfy`: the `slice`/`for` loop that cuts outputs into payments, and the proof that it partitions them.
- `ledger.dfy`: the unconfirmed-outputs query, and the confirmed-outputs query that is grouped and summed per address.
- `handlers.dfy`: the maps as a value (`Store`), each handler as a function of the maps and its event, and the lemmas about them.
- `bot.dfy`: class `ForwardingBot`. It holds the maps as fields that its methods update in place. Each method is proved equal to the matching function in `handlers.dfy`. Sent messages and submitted payments are kept as logs.

Inputs that come from outside are parameters:

- the rows the database returns;
- the address the wallet issues next (`issued`);
- the address check (`isValidAddress`, a function-typed constant of the class);
- the protocol prefix;
- the change address;
- the per-message output limit.

## Model

| member | source | states |
|---|---|---|
| `Text.Trim` | start.js:35 | the trimmed text is the slice between the leading and trailing white space and neither starts nor ends with white space |
| `Text.TrimIdempotent` | start.js:35 | trimming an already trimmed text changes nothing |
| `Text.NatToString` | start.js:43-44 | the amount in "Amount changed to …" is written as digits without a leading zero, and those digits parse back to the amount |
| `Text.NatToStringOfParse` | start.js:36-42 | `parseInt` of a digit string without a leading zero, written back as a string, gives the same string |
| `Text.IsDigits` | start.js:36 | the `/^\d+$/` test: one or more ASCII digits and nothing else; what parsing it gives is stated by `Text.NatToString` and `Text.NatToStringOfParse` |
| `Text.ParseDecimal` | start.js:39-42 | `parseInt` of a digit string, unbounded; it is the inverse of `Text.NatToString` on digit strings without a leading zero (`Text.NatToString`, `Text.NatToStringOfParse`) |
| `Text.IntToString` | start.js:70-71 | a row amount in a reply is written with a minus sign exactly when it is negative, followed by digits without a leading zero that parse back to its absolute value |
| `Replies.PaymentLink` | start.js:51-52 | the text `[Send payment](<protocol><address>?amount=<amount>)`; `Replies.PaymentLinkRoundTrip` and `Handlers.LinkAmountOfLink` state that it reads back as its amount |
| `Replies.PaymentLinkRoundTrip` | start.js:51-52 | the wallet that reads the payment link gets back the amount the link was built with |
| `Chunking.Slice` | start.js:95 | `slice` with an end past the length stops at the length; with a start past the length, or an end not after the start, it is empty |
| `Chunking.ChunksFrom` | start.js:94-95 | the slices the loop cuts from index `i` on; `Chunking.FlattenChunksFrom` states they concatenate back to the outputs from `i` |
| `Chunking.Chunks` | start.js:93-95 | the slices the loop cuts from index 0, in submission order; `Chunking.ChunksPartition` states that they partition the outputs |
| `Chunking.ChunksPartition` | start.js:93-100 | the chunks concatenate back to the outputs; chunk j is the j-th window of `maxOutputs`; each chunk holds 1 to `maxOutputs` outputs and only the last may be shorter; output p is in chunk p / maxOutputs only; there are ceil(n / maxOutputs) chunks, and none when n = 0 |
| `Chunking.ThreeMessages` | start.js:15 | for a per-message limit L of at least 4, 2L + 1 outputs go out as three payments of L - 1, L - 1 and 3 outputs |
| `Ledger.UnconfirmedRows` | start.js:65-66 | the unconfirmed query returns no more rows than outputs, and a row is returned exactly when some base-currency output of the notified units has that address and amount; that it is one row per such output is `Ledger.UnconfirmedAppend` |
| `Ledger.UnconfirmedAppend` | start.js:65-66 | the unconfirmed query reports selected outputs one row each and in table order: the rows of two stretches of the table are the first's followed by the second's |
| `Ledger.StableRows` | start.js:78-79 | the grouped and summed query; `Ledger.StableRowsSpec` and `Ledger.AggregatesAcrossUnits` state its rows |
| `Ledger.StableRowsSpec` | start.js:78-79 | the grouped query returns each paid address once, with the sum of its base-currency outputs across the notified units, and no other address |
| `Ledger.AggregatesAcrossUnits` | start.js:78-79 | outputs of 100 and 150 bytes to one address in two units give a single row of 250 |
| `Handlers.TextStep` | start.js:33-59 | the `text` handler on the maps as a value, as the refusal of a small amount, then `Handlers.AmountPhase`, then `Handlers.AddressPhase`; its cases are stated by `Handlers.TooSmallRefused`, `Handlers.AmountStored`, `Handlers.AddressRegistered` and `Handlers.UnrecognisedText`, and its invariant by `Handlers.TextStepKeepsInv` |
| `Handlers.AmountPhase` | start.js:38-45 | an all-digit text not refused sets the sender's amount and is confirmed; see `Handlers.AmountStored` |
| `Handlers.AddressPhase` | start.js:46-58 | a valid address registers the issued deposit address and gets the link, anything else the prompt; see `Handlers.AddressRegistered` and `Handlers.TextRepliesShape` |
| `Handlers.PaymentAmount` | start.js:50 | the link amount; `Handlers.PaymentAmountAtLeastMin` states it is the stored amount or 10000, never below 10000 |
| `Handlers.TooSmallRefused` | start.js:35-41 | an all-digit text below 10000 gets "Too small" only; no map changes and the address branch does not run |
| `Handlers.AmountStored` | start.js:42-46 | an all-digit text of 10000 or more becomes the sender's amount and no other device's; "Amount changed" comes first; if the text is not an address, the prompt follows and the deposit maps are unchanged |
| `Handlers.AddressRegistered` | start.js:38-53 | a valid address registers the issued deposit address in both deposit maps together, to the sender and to the typed text; the amounts change only when the text is also an amount; there is one reply, or two with "Amount changed" first, and the last is the link for the device's amount as stored before the address step |
| `Handlers.UnrecognisedText` | start.js:55-57 | a text that is neither digits nor an address changes nothing and gets the prompt only |
| `Handlers.TextStepKeepsInv` | start.js:39-49 | the text handler keeps stored amounts at 10000 or more, keeps the two deposit maps on the same keys, and stores only destinations that passed the address check |
| `Handlers.PaymentAmountAtLeastMin` | start.js:50 | the link amount is the stored amount if there is one and 10000 otherwise, so it is never below 10000 |
| `Handlers.RunTextKeepsInv` | start.js:33-59 | from the empty maps, any run of text events keeps that invariant, and every payment link sent reads back as at least 10000 |
| `Handlers.TextRepliesShape` | start.js:40-57 | of the replies to one text, only the last can be a link, and only when the text is a valid address; it is then the link to the issued address |
| `Handlers.LinkAmountOfLink` | start.js:52 | a payment link reads back as its own amount, whichever address it is checked against |
| `Handlers.NoticeFor` | start.js:69-71 | the notice for one row: one message to the device of a known deposit address, none for any other row |
| `Handlers.Notices` | start.js:67-72 | the watcher's notices for the rows; `Handlers.NoticesAppend` and `Handlers.NoticesCount` state them |
| `Handlers.NoticesAppend` | start.js:67-72 | the watcher handles the rows one at a time and in row order: the notices for two lists of rows in sequence are the first list's notices followed by the second's |
| `Handlers.NoticesCount` | start.js:67-72 | the watcher sends exactly one notice per row whose address is a known deposit address, and nothing when no row has one |
| `Handlers.SettleRow` | start.js:83-90 | settling one row: skipped if its address is no known deposit, "Failed to find address" without a destination, else an output of the amount less 1000 and a "sent" message |
| `Handlers.Settle` | start.js:82-91 | settling the rows in order; `Handlers.SettleAppend`, `Handlers.NoLookupFailure` and `Handlers.AggregatedPayout` state it |
| `Handlers.SettleAppend` | start.js:82-91 | settlement handles the rows one at a time and in row order: settling two lists of rows in sequence gives the first list's outputs and messages followed by the second's |
| `Handlers.NoLookupFailure` | start.js:83-88 | under the text handler's invariant, "Failed to find address" never happens; each known deposit yields exactly one output and one "sent" message |
| `Handlers.FeeNotBounded` | start.js:88 | no lower bound is checked, so a deposit of at most 1000 bytes is forwarded as zero or a negative amount |
| `Handlers.AggregatedPayout` | start.js:78-90 | for the grouped rows, a known deposit address with a destination is carried by exactly one row, and its output is the sum of its outputs less 1000 |
| `Handlers.Payments` | start.js:94-96 | one payment per chunk, in chunk order, each with the first address as change address |
| `Bot.ForwardingBot.constructor` | start.js:15-20 | the bot starts with empty maps and logs, and forwards at most one output fewer than the per-message limit per payment |
| `Bot.ForwardingBot.OnText` | start.js:33-59 | the `text` handler updates the maps in place and sends the replies of `Handlers.TextStep`, in order, and keeps the maps' invariant |
| `Bot.ForwardingBot.OnNewTransactions` | start.js:63-74 | the watcher keeps the maps' invariant, changes no map and sends exactly `Handlers.Notices` for the rows, so replaying the same rows sends the same notices again |
| `Bot.ForwardingBot.SendNotices` | start.js:68-72 | the `forEach` loop sends exactly `Handlers.Notices` for the rows, in row order, and changes nothing else |
| `Bot.ForwardingBot.OnTransactionsStable` | start.js:76-102 | settlement keeps the maps' invariant, changes no map, sends the settlement messages, and submits one payment per chunk of the settlement outputs, from the first address |
| `Bot.ForwardingBot.CollectOutputs` | start.js:82-91 | the row loop returns exactly the settlement outputs of the rows and sends exactly their settlement messages, in row order |
| `Bot.ForwardingBot.SubmitInChunks` | start.js:93-100 | the `slice` loop submits one payment per chunk of the outputs, in chunk order, each from the first address |

## Left out

- Event wiring is not modelled: `headless_wallet_ready`, `setupChatEventHandlers`, and re-requiring `ocore/device.js` in each handler (start.js:22-34).
- The `paired` greeting is not modelled (start.js:28-31).
- `readFirstAddress` is not modelled. Its result is the constant `firstAddress`.
- `device.sendMessageToDevice` is a `(device, text)` entry appended to the `sent` log.
- `headlessWallet.sendMultiPayment` is a `Payment` appended to the `submitted` log. Its callback, the error and unit logging, is not modelled.
- `db.query` is not modelled. Its results are the `rows` parameters. The functions in `ledger.dfy` state what those rows are for a given table. SQL leaves result order unspecified, and that model uses order of first appearance.
- `headlessWallet.issueNextMainAddress` is the `issued` parameter. In the source, the whole registration runs in an asynchronous callback after the handler returns: the writes to `assocDeposit2Device` and `assocDeposit2Address` and the link message (start.js:47-53). The model does all three at the end of the same handler, so an event handled between the two, for instance a payment to the new deposit address arriving before it is registered, is not modelled.
- `validationUtils.isValidAddress` is an arbitrary function. Proving that "Failed to find address" cannot happen needs one assumption: the check rejects the empty text.
- `Array.prototype.forEachAsync` and callback interleaving are not modelled. Each handler runs to completion (start.js:10-12, 82).
- Number precision is not modelled. Amounts are unbounded integers, so `parseInt` rounding above 2^53 and exponent notation above 10^21 in replies do not occur in the model.
- JavaScript object keys are modelled as map keys. Inherited keys such as `constructor` are not, since ledger addresses cannot take those names. Truthiness is modelled: a value is absent when the key is missing, the string is empty, or the amount is 0.
- The value of `MAX_OUTPUTS_PER_PAYMENT_MESSAGE` is a constructor parameter. `ocore/constants.js` is not part of this model. The constructor requires a limit above 1, because with a limit of 1 the source's loop would step by 0 and never end.
- The protocol prefix `obyte:` or `obyte-tn:` is a constructor parameter (start.js:14).
- The `unhandledRejection` crash handler is not modelled (start.js:105).
