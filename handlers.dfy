/**
 * The three event handlers of the forwarding bot as functions of the bot's
 * maps and of what the event carries: a typed text, the rows of an
 * unconfirmed-outputs query, the rows of a confirmed-outputs query. Messages
 * to devices and submitted payments are returned as lists, in the order the
 * handler issues them.
 */
module Handlers {
  import opened Wrappers
  import opened Text
  import opened Replies
  import opened Ledger
  import opened Chunking

  /** A text message sent to a paired device. */
  datatype Message = Message(device: string, text: string)

  /** One output of a multi-payment: `{amount, address}`. */
  datatype Output = Output(amount: int, address: string)

  /** One submitted payment: the change address and its base outputs. */
  datatype Payment = Payment(changeAddress: string, outputs: seq<Output>)

  /**
   * The bot's three maps: the amount each device asked to send, and for each
   * deposit address issued, the device that asked for it and the address
   * the deposit is to be forwarded to.
   */
  datatype Store = Store(
    device2Amount: map<string, nat>,
    deposit2Device: map<string, string>,
    deposit2Address: map<string, string>)

  const EmptyStore: Store := Store(map[], map[], map[])

  /** `m[k]` is truthy in JavaScript: the key is present and its value is not the empty string. */
  predicate HasText(m: map<string, string>, k: string) {
    k in m && m[k] != ""
  }

  /** `m[k]` is truthy in JavaScript: the key is present and its value is not 0. */
  predicate HasAmount(m: map<string, nat>, k: string) {
    k in m && m[k] != 0
  }

  /**
   * What the text handler keeps true of the maps: every stored amount is at
   * least the minimum, both deposit maps have the same keys, and every
   * destination passed the address check.
   */
  predicate Inv(st: Store, isValidAddress: string -> bool) {
    && (forall d :: d in st.device2Amount ==> st.device2Amount[d] >= MIN_AMOUNT)
    && st.deposit2Device.Keys == st.deposit2Address.Keys
    && (forall a :: a in st.deposit2Address ==> isValidAddress(st.deposit2Address[a]))
  }

  // ---------------------------------------------------------------------
  // The 'text' handler

  lemma AppendAssoc<T>(a: seq<T>, b: seq<T>, c: seq<T>)
    ensures a + (b + c) == (a + b) + c
  {
  }

  /** The amount put in the payment link: the device's stored amount, or the default. */
  function PaymentAmount(amounts: map<string, nat>, device: string): nat {
    if HasAmount(amounts, device) then amounts[device] else DEFAULT_AMOUNT
  }

  datatype TextOutcome = TextOutcome(store: Store, replies: seq<Message>)

  /**
   * The 'text' handler: a trimmed all-digit text sets the device's amount
   * (or is refused as too small, which ends the handler); independently, a
   * text that is a valid address registers the freshly issued deposit
   * address `issued` and answers with a payment link to it, and any other
   * text gets the generic prompt.
   */
  function TextStep(st: Store, protocol: string, isValidAddress: string -> bool,
                    from: string, text: string, issued: string): TextOutcome
  {
    var t := Trim(text);
    if IsDigits(t) && ParseDecimal(t) < MIN_AMOUNT then
      TextOutcome(st, [Message(from, TOO_SMALL)])
    else
      AddressPhase(AmountPhase(st, from, t), protocol, isValidAddress, from, t, issued)
  }

  /** The first half of the handler once an amount is not refused: an all-digit text is stored and confirmed. */
  function AmountPhase(st: Store, from: string, t: string): TextOutcome {
    if IsDigits(t) then
      TextOutcome(st.(device2Amount := st.device2Amount[from := ParseDecimal(t)]),
                  [Message(from, AmountChanged(ParseDecimal(t)))])
    else
      TextOutcome(st, [])
  }

  /** The second half: a valid address is registered and answered with a link, anything else with the prompt. */
  function AddressPhase(a: TextOutcome, protocol: string, isValidAddress: string -> bool,
                        from: string, t: string, issued: string): TextOutcome
  {
    if isValidAddress(t) then
      var st := a.store.(deposit2Device := a.store.deposit2Device[issued := from],
                         deposit2Address := a.store.deposit2Address[issued := t]);
      TextOutcome(st, a.replies + [Message(from, PaymentLink(protocol, issued, PaymentAmount(st.device2Amount, from)))])
    else
      TextOutcome(a.store, a.replies + [Message(from, PROMPT)])
  }

  /** An amount below the minimum is refused: nothing is stored and no address is issued. */
  lemma TooSmallRefused(st: Store, protocol: string, isValidAddress: string -> bool,
                        from: string, text: string, issued: string)
    requires IsDigits(Trim(text)) && ParseDecimal(Trim(text)) < MIN_AMOUNT
    ensures TextStep(st, protocol, isValidAddress, from, text, issued)
      == TextOutcome(st, [Message(from, TOO_SMALL)])
  {
  }

  /**
   * An amount of at least the minimum becomes the device's amount and
   * nothing else's; the confirmation comes first, and when the text is not
   * an address the prompt follows and the deposit maps stay as they were.
   */
  lemma AmountStored(st: Store, protocol: string, isValidAddress: string -> bool,
                     from: string, text: string, issued: string)
    requires IsDigits(Trim(text)) && ParseDecimal(Trim(text)) >= MIN_AMOUNT
    ensures var o := TextStep(st, protocol, isValidAddress, from, text, issued);
      && o.store.device2Amount == st.device2Amount[from := ParseDecimal(Trim(text))]
      && |o.replies| == 2
      && o.replies[0] == Message(from, AmountChanged(ParseDecimal(Trim(text))))
      && (!isValidAddress(Trim(text)) ==>
            o.replies[1] == Message(from, PROMPT)
            && o.store.deposit2Device == st.deposit2Device
            && o.store.deposit2Address == st.deposit2Address)
  {
    var t := Trim(text);
    var n := ParseDecimal(t);
    var st1 := st.(device2Amount := st.device2Amount[from := n]);
    var r1 := [Message(from, AmountChanged(n))];
    var o := TextStep(st, protocol, isValidAddress, from, text, issued);
    if isValidAddress(t) {
      var st2 := st1.(deposit2Device := st1.deposit2Device[issued := from],
                      deposit2Address := st1.deposit2Address[issued := t]);
      assert o.store == st2;
      assert o.replies == r1 + [Message(from, PaymentLink(protocol, issued, PaymentAmount(st2.device2Amount, from)))];
    } else {
      assert o == TextOutcome(st1, r1 + [Message(from, PROMPT)]);
    }
  }

  /**
   * A valid address registers the issued deposit address in both deposit
   * maps at once (to the sender and to the trimmed text) and answers with
   * a link for the device's amount, or the default when none is stored.
   */
  lemma AddressRegistered(st: Store, protocol: string, isValidAddress: string -> bool,
                          from: string, text: string, issued: string)
    requires isValidAddress(Trim(text))
    requires !(IsDigits(Trim(text)) && ParseDecimal(Trim(text)) < MIN_AMOUNT)
    ensures var o := TextStep(st, protocol, isValidAddress, from, text, issued);
      && o.store.deposit2Device == st.deposit2Device[issued := from]
      && o.store.deposit2Address == st.deposit2Address[issued := Trim(text)]
      && o.store.device2Amount
         == (if IsDigits(Trim(text)) then st.device2Amount[from := ParseDecimal(Trim(text))] else st.device2Amount)
      && |o.replies| == (if IsDigits(Trim(text)) then 2 else 1)
      && o.replies[|o.replies| - 1]
         == Message(from, PaymentLink(protocol, issued, PaymentAmount(o.store.device2Amount, from)))
  {
    var t := Trim(text);
    var st1 := if IsDigits(t) then st.(device2Amount := st.device2Amount[from := ParseDecimal(t)]) else st;
    var r1 := if IsDigits(t) then [Message(from, AmountChanged(ParseDecimal(t)))] else [];
    var st2 := st1.(deposit2Device := st1.deposit2Device[issued := from],
                    deposit2Address := st1.deposit2Address[issued := t]);
    var link := Message(from, PaymentLink(protocol, issued, PaymentAmount(st2.device2Amount, from)));
    var o := TextStep(st, protocol, isValidAddress, from, text, issued);
    assert o == TextOutcome(st2, r1 + [link]);
  }

  /** A text that is neither an amount nor an address only gets the prompt. */
  lemma UnrecognisedText(st: Store, protocol: string, isValidAddress: string -> bool,
                         from: string, text: string, issued: string)
    requires !IsDigits(Trim(text)) && !isValidAddress(Trim(text))
    ensures TextStep(st, protocol, isValidAddress, from, text, issued)
      == TextOutcome(st, [Message(from, PROMPT)])
  {
  }

  lemma InvSetAmount(st: Store, isValidAddress: string -> bool, device: string, amount: nat)
    requires Inv(st, isValidAddress) && amount >= MIN_AMOUNT
    ensures Inv(st.(device2Amount := st.device2Amount[device := amount]), isValidAddress)
  {
  }

  lemma InvRegister(st: Store, isValidAddress: string -> bool, deposit: string, device: string, destination: string)
    requires Inv(st, isValidAddress) && isValidAddress(destination)
    ensures Inv(st.(deposit2Device := st.deposit2Device[deposit := device],
                    deposit2Address := st.deposit2Address[deposit := destination]), isValidAddress)
  {
  }

  /** The text handler keeps the invariant of the maps. */
  lemma TextStepKeepsInv(st: Store, protocol: string, isValidAddress: string -> bool,
                         from: string, text: string, issued: string)
    requires Inv(st, isValidAddress)
    ensures Inv(TextStep(st, protocol, isValidAddress, from, text, issued).store, isValidAddress)
  {
    var t := Trim(text);
    var o := TextStep(st, protocol, isValidAddress, from, text, issued);
    if !(IsDigits(t) && ParseDecimal(t) < MIN_AMOUNT) {
      var st1 := if IsDigits(t) then st.(device2Amount := st.device2Amount[from := ParseDecimal(t)]) else st;
      if IsDigits(t) {
        InvSetAmount(st, isValidAddress, from, ParseDecimal(t));
      }
      if isValidAddress(t) {
        InvRegister(st1, isValidAddress, issued, from, t);
        assert o.store == st1.(deposit2Device := st1.deposit2Device[issued := from],
                               deposit2Address := st1.deposit2Address[issued := t]);
      } else {
        assert o.store == st1;
      }
    }
  }

  /** With the invariant, the link amount is the stored amount if there is one, else the default, and never below the minimum. */
  lemma PaymentAmountAtLeastMin(st: Store, isValidAddress: string -> bool, device: string)
    requires Inv(st, isValidAddress)
    ensures PaymentAmount(st.device2Amount, device) >= MIN_AMOUNT
    ensures device in st.device2Amount ==> PaymentAmount(st.device2Amount, device) == st.device2Amount[device]
    ensures device !in st.device2Amount ==> PaymentAmount(st.device2Amount, device) == DEFAULT_AMOUNT
  {
  }

  /** A typed text event: the sender, the text, and the address the wallet would issue next. */
  datatype TextEvent = TextEvent(from: string, text: string, issued: string)

  /** The maps after a run of text events, and every reply sent along the way. */
  function RunText(st: Store, protocol: string, isValidAddress: string -> bool, events: seq<TextEvent>): TextOutcome
  {
    if events == [] then TextOutcome(st, [])
    else
      var prev := RunText(st, protocol, isValidAddress, events[..|events| - 1]);
      var e := events[|events| - 1];
      var o := TextStep(prev.store, protocol, isValidAddress, e.from, e.text, e.issued);
      TextOutcome(o.store, prev.replies + o.replies)
  }

  /**
   * From the empty maps, every run of text events leaves the invariant true,
   * and every payment link sent reads back as an amount of at least the
   * minimum.
   */
  lemma {:induction false} RunTextKeepsInv(protocol: string, isValidAddress: string -> bool, events: seq<TextEvent>)
    ensures var o := RunText(EmptyStore, protocol, isValidAddress, events);
      && Inv(o.store, isValidAddress)
      && forall i, issued :: 0 <= i < |o.replies| && ReadLinkAmount(o.replies[i].text, protocol, issued).Some? ==>
           ReadLinkAmount(o.replies[i].text, protocol, issued).value >= MIN_AMOUNT
  {
    if events != [] {
      var init := events[..|events| - 1];
      var prev := RunText(EmptyStore, protocol, isValidAddress, init);
      RunTextKeepsInv(protocol, isValidAddress, init);
      var e := events[|events| - 1];
      var o := TextStep(prev.store, protocol, isValidAddress, e.from, e.text, e.issued);
      TextStepKeepsInv(prev.store, protocol, isValidAddress, e.from, e.text, e.issued);
      forall i, issued | 0 <= i < |o.replies| && ReadLinkAmount(o.replies[i].text, protocol, issued).Some?
        ensures ReadLinkAmount(o.replies[i].text, protocol, issued).value >= MIN_AMOUNT
      {
        TextRepliesLinks(prev.store, protocol, isValidAddress, e.from, e.text, e.issued, o, i, issued);
      }
    }
  }

  /**
   * Of the replies to one text, only the last can start like a link, and
   * only when the text was an address: it is then the link to the issued
   * address for the device's amount.
   */
  lemma TextRepliesShape(st: Store, protocol: string, isValidAddress: string -> bool,
                         from: string, text: string, issued: string, o: TextOutcome)
    requires o == TextStep(st, protocol, isValidAddress, from, text, issued)
    ensures forall i :: 0 <= i < |o.replies| && o.replies[i].text != [] && o.replies[i].text[0] == '[' ==>
      && i == |o.replies| - 1
      && isValidAddress(Trim(text))
      && o.replies[i].text == PaymentLink(protocol, issued, PaymentAmount(o.store.device2Amount, from))
  {
    var t := Trim(text);
    assert TOO_SMALL[0] == 'T' && PROMPT[0] == 'P';
    if !(IsDigits(t) && ParseDecimal(t) < MIN_AMOUNT) {
      var st1 := if IsDigits(t) then st.(device2Amount := st.device2Amount[from := ParseDecimal(t)]) else st;
      var r1 := if IsDigits(t) then [Message(from, AmountChanged(ParseDecimal(t)))] else [];
      assert forall i :: 0 <= i < |r1| ==> r1[i].text[0] == 'A';
      if isValidAddress(t) {
        var st2 := st1.(deposit2Device := st1.deposit2Device[issued := from],
                        deposit2Address := st1.deposit2Address[issued := t]);
        assert o.replies == r1 + [Message(from, PaymentLink(protocol, issued, PaymentAmount(st2.device2Amount, from)))];
      } else {
        assert o.replies == r1 + [Message(from, PROMPT)];
      }
    }
  }

  /** Every reply to one text that reads as a payment link reads as an amount of at least the minimum. */
  lemma TextRepliesLinks(st: Store, protocol: string, isValidAddress: string -> bool,
                         from: string, text: string, issued: string, o: TextOutcome, i: nat, address: string)
    requires Inv(st, isValidAddress)
    requires o == TextStep(st, protocol, isValidAddress, from, text, issued)
    requires i < |o.replies| && ReadLinkAmount(o.replies[i].text, protocol, address).Some?
    ensures ReadLinkAmount(o.replies[i].text, protocol, address).value >= MIN_AMOUNT
  {
    var msg := o.replies[i].text;
    LinkStartsWithBracket(msg, protocol, address);
    TextRepliesShape(st, protocol, isValidAddress, from, text, issued, o);
    TextStepKeepsInv(st, protocol, isValidAddress, from, text, issued);
    var n := PaymentAmount(o.store.device2Amount, from);
    PaymentAmountAtLeastMin(o.store, isValidAddress, from);
    LinkAmountOfLink(protocol, issued, address, n);
  }

  /** Only a text that starts with '[' can read as a payment link. */
  lemma LinkStartsWithBracket(msg: string, protocol: string, address: string)
    requires ReadLinkAmount(msg, protocol, address).Some?
    ensures msg[0] == '['
  {
    assert msg[0] == LinkPrefix(protocol, address)[0];
  }

  /** An '=' at position k of a text whose tail from j holds no '=' lies before j. */
  lemma EqualsBeforeTail(s: string, k: nat, j: nat)
    requires k < |s| && s[k] == '='
    requires forall i :: j <= i < |s| ==> s[i] != '='
    ensures k < j
  {
  }

  /** Whatever address a link is read against, the amount read is the one it was built with. */
  lemma LinkAmountOfLink(protocol: string, issued: string, address: string, n: nat)
    requires ReadLinkAmount(PaymentLink(protocol, issued, n), protocol, address).Some?
    ensures ReadLinkAmount(PaymentLink(protocol, issued, n), protocol, address).value == n
  {
    var link := PaymentLink(protocol, issued, n);
    var p, q := LinkPrefix(protocol, address), LinkPrefix(protocol, issued);
    var ds := link[|p|..|link| - 1];
    assert IsDigits(ds);
    // both prefixes end in '=', and neither the digits nor the closing parenthesis is one
    assert link[|p| - 1] == p[|p| - 1] == '=';
    assert link[|q| - 1] == q[|q| - 1] == '=';
    assert link[|q|..] == NatToString(n) + ")";
    EqualsBeforeTail(link, |p| - 1, |q|);
    assert forall i :: |p| <= i < |link| - 1 ==> link[i] == ds[i - |p|];
    EqualsBeforeTail(link, |q| - 1, |p|);
    assert ds == NatToString(n);
  }

  // ---------------------------------------------------------------------
  // The 'new_my_transactions' handler

  /** The notice for one unconfirmed output row: one message to the device that asked for the deposit address, or none. */
  function NoticeFor(deposit2Device: map<string, string>, r: Row): seq<Message> {
    if HasText(deposit2Device, r.address) then [Message(deposit2Device[r.address], Received(r.amount))] else []
  }

  /** The notices sent for a list of unconfirmed output rows. */
  function Notices(deposit2Device: map<string, string>, rows: seq<Row>): seq<Message> {
    if rows == [] then []
    else Notices(deposit2Device, rows[..|rows| - 1]) + NoticeFor(deposit2Device, rows[|rows| - 1])
  }

  /** The number of rows whose address is a known deposit address. */
  function KnownCount(deposit2Device: map<string, string>, rows: seq<Row>): nat {
    if rows == [] then 0
    else KnownCount(deposit2Device, rows[..|rows| - 1]) + (if HasText(deposit2Device, rows[|rows| - 1].address) then 1 else 0)
  }

  /**
   * The handler treats the rows one at a time and in order: the notices for
   * two lists of rows one after the other are the notices for the first
   * followed by those for the second.
   */
  lemma {:induction false} NoticesAppend(deposit2Device: map<string, string>, rows: seq<Row>, more: seq<Row>)
    ensures Notices(deposit2Device, rows + more) == Notices(deposit2Device, rows) + Notices(deposit2Device, more)
    decreases |more|
  {
    if more == [] {
      assert rows + more == rows;
    } else {
      var init := more[..|more| - 1];
      assert (rows + more)[..|rows + more| - 1] == rows + init;
      NoticesAppend(deposit2Device, rows, init);
    }
  }

  /**
   * The handler sends exactly one notice per row whose address is a known
   * deposit address, so nothing when no row has one.
   */
  lemma {:induction false} NoticesCount(deposit2Device: map<string, string>, rows: seq<Row>)
    ensures |Notices(deposit2Device, rows)| == KnownCount(deposit2Device, rows)
    ensures KnownCount(deposit2Device, rows) == 0 ==> Notices(deposit2Device, rows) == []
  {
    if rows != [] {
      NoticesCount(deposit2Device, rows[..|rows| - 1]);
    }
  }

  // ---------------------------------------------------------------------
  // The 'my_transactions_became_stable' handler

  /** What settling some confirmed rows produces: the outputs to pay and the messages to send. */
  datatype Settlement = Settlement(outputs: seq<Output>, notices: seq<Message>)

  /**
   * Settling one confirmed row: an unknown deposit address is skipped; a
   * known one without a destination gets the failure message; otherwise the
   * amount less the fee is paid to the destination and the device is told.
   */
  function SettleRow(st: Store, r: Row): Settlement {
    if !HasText(st.deposit2Device, r.address) then Settlement([], [])
    else
      var device := st.deposit2Device[r.address];
      if !HasText(st.deposit2Address, r.address) then Settlement([], [Message(device, FAILED_TO_FIND)])
      else
        var destination := st.deposit2Address[r.address];
        Settlement([Output(r.amount - FEE, destination)], [Message(device, Forwarded(r.amount - FEE, destination))])
  }

  /** Settling a list of confirmed rows, in row order. */
  function Settle(st: Store, rows: seq<Row>): Settlement {
    if rows == [] then Settlement([], [])
    else
      var s := Settle(st, rows[..|rows| - 1]);
      var t := SettleRow(st, rows[|rows| - 1]);
      Settlement(s.outputs + t.outputs, s.notices + t.notices)
  }

  /**
   * Settlement treats the rows one at a time and in order: settling two
   * lists of rows one after the other yields the outputs and the messages of
   * the first followed by those of the second.
   */
  lemma {:induction false} SettleAppend(st: Store, rows: seq<Row>, more: seq<Row>)
    ensures Settle(st, rows + more).outputs == Settle(st, rows).outputs + Settle(st, more).outputs
    ensures Settle(st, rows + more).notices == Settle(st, rows).notices + Settle(st, more).notices
    decreases |more|
  {
    if more == [] {
      assert rows + more == rows;
    } else {
      var init := more[..|more| - 1];
      assert (rows + more)[..|rows + more| - 1] == rows + init;
      SettleAppend(st, rows, init);
    }
  }

  /** Settling a single row is settling that row. */
  lemma SettleOne(st: Store, r: Row)
    ensures Settle(st, [r]) == SettleRow(st, r)
  {
    assert [r][..0] == [];
  }

  /**
   * With the invariant kept by the text handler (and an address check that
   * refuses the empty text), the lookup failure cannot happen: every row
   * with a known deposit address yields exactly one output and one
   * "sent" message, and no other row yields anything.
   */
  lemma {:induction false} NoLookupFailure(st: Store, isValidAddress: string -> bool, rows: seq<Row>)
    requires Inv(st, isValidAddress) && !isValidAddress("")
    ensures |Settle(st, rows).outputs| == |Settle(st, rows).notices| == KnownCount(st.deposit2Device, rows)
    ensures forall m :: m in Settle(st, rows).notices ==> m.text != FAILED_TO_FIND
  {
    if rows != [] {
      var r := rows[|rows| - 1];
      NoLookupFailure(st, isValidAddress, rows[..|rows| - 1]);
      if HasText(st.deposit2Device, r.address) {
        assert st.deposit2Address[r.address] != "";
        var text := Forwarded(r.amount - FEE, st.deposit2Address[r.address]);
        assert text[0] != FAILED_TO_FIND[0];
      }
    }
  }

  /** No lower bound is checked: a deposit of at most the fee is forwarded as a zero or negative amount. */
  lemma FeeNotBounded(st: Store, r: Row)
    requires HasText(st.deposit2Device, r.address) && HasText(st.deposit2Address, r.address)
    requires r.amount <= FEE
    ensures Settle(st, [r]).outputs == [Output(r.amount - FEE, st.deposit2Address[r.address])]
    ensures Settle(st, [r]).outputs[0].amount <= 0
  {
    assert [r][..0] == [];
  }

  /**
   * Settling the grouped query's rows pays a known deposit address once:
   * exactly one row carries it, and its output is the sum of every base
   * output to it across the notified units, less the fee.
   */
  lemma AggregatedPayout(st: Store, outs: seq<LedgerOutput>, units: set<string>, a: string)
    requires Pays(outs, units, a)
    requires HasText(st.deposit2Device, a) && HasText(st.deposit2Address, a)
    ensures var rows := StableRows(outs, units);
      exists i :: 0 <= i < |rows| && rows[i].address == a
        && (forall j :: 0 <= j < |rows| && rows[j].address == a ==> j == i)
        && SettleRow(st, rows[i]).outputs == [Output(Total(outs, units, a) - FEE, st.deposit2Address[a])]
    ensures Output(Total(outs, units, a) - FEE, st.deposit2Address[a]) in Settle(st, StableRows(outs, units)).outputs
  {
    var rows := StableRows(outs, units);
    var i := StableRowIndex(outs, units, a);
    var out := SettleRow(st, rows[i]).outputs;
    assert out == [Output(Total(outs, units, a) - FEE, st.deposit2Address[a])];
    assert rows == rows[..i] + [rows[i]] + rows[i + 1..];
    SettleAppend(st, rows[..i] + [rows[i]], rows[i + 1..]);
    SettleAppend(st, rows[..i], [rows[i]]);
    SettleOne(st, rows[i]);
  }

  /** The one row of the grouped query that carries a paid address. */
  lemma StableRowIndex(outs: seq<LedgerOutput>, units: set<string>, a: string) returns (i: nat)
    requires Pays(outs, units, a)
    ensures i < |StableRows(outs, units)| && StableRows(outs, units)[i] == Row(a, Total(outs, units, a))
    ensures forall j :: 0 <= j < |StableRows(outs, units)| && StableRows(outs, units)[j].address == a ==> j == i
  {
    var rows := StableRows(outs, units);
    StableRowsSpec(outs, units);
    var r :| r in rows && r.address == a;
    i :| 0 <= i < |rows| && rows[i] == r;
  }

  /** The payments submitted for some outputs cut into chunks: one per chunk, each from the bot's change address. */
  function Payments(changeAddress: string, chunks: seq<seq<Output>>): (r: seq<Payment>)
    ensures |r| == |chunks|
    ensures forall k :: 0 <= k < |r| ==> r[k] == Payment(changeAddress, chunks[k])
  {
    if chunks == [] then [] else [Payment(changeAddress, chunks[0])] + Payments(changeAddress, chunks[1..])
  }

  lemma PaymentsCons(changeAddress: string, chunk: seq<Output>, rest: seq<seq<Output>>)
    ensures Payments(changeAddress, [chunk] + rest) == [Payment(changeAddress, chunk)] + Payments(changeAddress, rest)
  {
    assert ([chunk] + rest)[1..] == rest;
  }
}
