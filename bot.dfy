/**
 * The forwarding bot as the process holds it: the three maps it updates in
 * place, and the two effects it has on the world, recorded as logs — the
 * text messages sent to devices and the multi-payments submitted to the
 * wallet. Each event handler is a method that runs to completion.
 */
module Bot {
  import opened Text
  import opened Replies
  import opened Ledger
  import opened Chunking
  import opened Handlers

  class ForwardingBot {
    /** The pairing-link protocol prefix, `obyte:` or `obyte-tn:` on testnet. */
    const protocol: string
    /** The wallet's first address, used as the change address of every payment. */
    const firstAddress: string
    /** Outputs per submitted payment: one less than the ledger's per-message limit. */
    const maxOutputs: Pos
    /** The ledger's address check, not modelled. */
    const isValidAddress: string -> bool

    var device2Amount: map<string, nat>
    var deposit2Device: map<string, string>
    var deposit2Address: map<string, string>

    /** Every text message sent to a device, oldest first. */
    var sent: seq<Message>
    /** Every multi-payment submitted to the wallet, oldest first. */
    var submitted: seq<Payment>

    function Maps(): Store
      reads this`device2Amount, this`deposit2Device, this`deposit2Address
    {
      Store(device2Amount, deposit2Device, deposit2Address)
    }

    ghost predicate Valid()
      reads this`device2Amount, this`deposit2Device, this`deposit2Address
    {
      Inv(Maps(), isValidAddress)
    }

    constructor (protocol: string, firstAddress: string, maxOutputsPerMessage: int, isValidAddress: string -> bool)
      requires maxOutputsPerMessage > 1
      ensures Valid()
      ensures this.protocol == protocol && this.firstAddress == firstAddress
      ensures this.maxOutputs == maxOutputsPerMessage - 1 && this.isValidAddress == isValidAddress
      ensures Maps() == EmptyStore && sent == [] && submitted == []
    {
      this.protocol := protocol;
      this.firstAddress := firstAddress;
      this.maxOutputs := maxOutputsPerMessage - 1;
      this.isValidAddress := isValidAddress;
      device2Amount, deposit2Device, deposit2Address := map[], map[], map[];
      sent, submitted := [], [];
    }

    /** The 'text' event: `from` typed `text`; `issued` is the address the wallet issues next. */
    method OnText(from: string, text: string, issued: string)
      requires Valid()
      modifies this`device2Amount, this`deposit2Device, this`deposit2Address, this`sent
      ensures Valid()
      ensures var o := TextStep(old(Maps()), protocol, isValidAddress, from, text, issued);
        Maps() == o.store && sent == old(sent) + o.replies
    {
      ghost var st := Maps();
      TextStepKeepsInv(st, protocol, isValidAddress, from, text, issued);
      var t := Trim(text);
      if IsDigits(t) {
        var amount := ParseDecimal(t);
        if amount < MIN_AMOUNT {
          sent := sent + [Message(from, TOO_SMALL)];
          return;
        }
        device2Amount := device2Amount[from := amount];
        sent := sent + [Message(from, AmountChanged(device2Amount[from]))];
      }
      ghost var a := AmountPhase(st, from, t);
      assert Maps() == a.store && sent == old(sent) + a.replies;
      if isValidAddress(t) {
        deposit2Device := deposit2Device[issued := from];
        deposit2Address := deposit2Address[issued := t];
        var amount := PaymentAmount(device2Amount, from);
        AppendAssoc(old(sent), a.replies, [Message(from, PaymentLink(protocol, issued, amount))]);
        sent := sent + [Message(from, PaymentLink(protocol, issued, amount))];
      } else {
        AppendAssoc(old(sent), a.replies, [Message(from, PROMPT)]);
        sent := sent + [Message(from, PROMPT)];
      }
    }

    /** The 'new_my_transactions' event: `rows` are the base-currency outputs of the new units. */
    method OnNewTransactions(rows: seq<Row>)
      requires Valid()
      modifies this`sent
      ensures Valid()
      ensures sent == old(sent) + Notices(deposit2Device, rows)
    {
      if |rows| == 0 {
        return;
      }
      SendNotices(rows);
    }

    /** The row loop of the watcher: a notice to the device of each known deposit address, in row order. */
    method SendNotices(rows: seq<Row>)
      modifies this`sent
      ensures sent == old(sent) + Notices(deposit2Device, rows)
    {
      var i := 0;
      while i < |rows|
        invariant 0 <= i <= |rows|
        invariant sent == old(sent) + Notices(deposit2Device, rows[..i])
      {
        var row := rows[i];
        if row.address in deposit2Device && deposit2Device[row.address] != "" {
          sent := sent + [Message(deposit2Device[row.address], Received(row.amount))];
        }
        assert rows[..i + 1][..i] == rows[..i];
        i := i + 1;
      }
      assert rows[..i] == rows;
    }

    /**
     * The 'my_transactions_became_stable' event: `rows` are the base-currency
     * outputs of the stable units, summed per address. The deposits are
     * forwarded less the fee, in payments of at most `maxOutputs` outputs.
     */
    method OnTransactionsStable(rows: seq<Row>)
      requires Valid()
      modifies this`sent, this`submitted
      ensures Valid()
      ensures var s := Settle(Maps(), rows);
        && sent == old(sent) + s.notices
        && submitted == old(submitted) + Payments(firstAddress, Chunks(s.outputs, maxOutputs))
    {
      if |rows| == 0 {
        return;
      }
      var outputs := CollectOutputs(rows);
      // `if (!arrOutputs) return;` never returns: an array is always truthy
      SubmitInChunks(outputs);
    }

    /** The row loop of the stable handler: the outputs to forward, with a message per known deposit. */
    method CollectOutputs(rows: seq<Row>) returns (outputs: seq<Output>)
      modifies this`sent
      ensures outputs == Settle(Maps(), rows).outputs
      ensures sent == old(sent) + Settle(Maps(), rows).notices
    {
      outputs := [];
      var i := 0;
      while i < |rows|
        invariant 0 <= i <= |rows|
        invariant outputs == Settle(Maps(), rows[..i]).outputs
        invariant sent == old(sent) + Settle(Maps(), rows[..i]).notices
      {
        var row := rows[i];
        assert rows[..i + 1][..i] == rows[..i];
        if row.address in deposit2Device && deposit2Device[row.address] != "" {
          var from := deposit2Device[row.address];
          if !(row.address in deposit2Address && deposit2Address[row.address] != "") {
            sent := sent + [Message(from, FAILED_TO_FIND)];
          } else {
            outputs := outputs + [Output(row.amount - FEE, deposit2Address[row.address])];
            sent := sent + [Message(from, Forwarded(row.amount - FEE, deposit2Address[row.address]))];
          }
        }
        i := i + 1;
      }
      assert rows[..i] == rows;
    }

    /** The chunking loop of the stable handler: one payment per `slice(i, i + maxOutputs)`. */
    method SubmitInChunks(outputs: seq<Output>)
      modifies this`submitted
      ensures submitted == old(submitted) + Payments(firstAddress, Chunks(outputs, maxOutputs))
    {
      var i, j := 0, |outputs|;
      while i < j
        invariant submitted + Payments(firstAddress, ChunksFrom(outputs, maxOutputs, i))
               == old(submitted) + Payments(firstAddress, Chunks(outputs, maxOutputs))
        decreases j - i
      {
        var baseOutputs := Slice(outputs, i, i + maxOutputs);
        ghost var rest := ChunksFrom(outputs, maxOutputs, i + maxOutputs);
        assert ChunksFrom(outputs, maxOutputs, i) == [baseOutputs] + rest;
        PaymentsCons(firstAddress, baseOutputs, rest);
        AppendAssoc(submitted, [Payment(firstAddress, baseOutputs)], Payments(firstAddress, rest));
        submitted := submitted + [Payment(firstAddress, baseOutputs)];
        i := i + maxOutputs;
      }
    }
  }
}
