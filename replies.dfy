/**
 * The fixed amounts of the forwarding bot and the texts it sends to a device:
 * the prompts, the confirmations, and the payment link whose amount the
 * paired wallet reads back.
 */
module Replies {
  import opened Wrappers
  import opened Text

  /** Smallest amount, in bytes, that a typed amount may set. */
  const MIN_AMOUNT: nat := 10000
  /** Amount put in the payment link when the device never set one. */
  const DEFAULT_AMOUNT: nat := 10000
  /** Bytes kept by the bot from every forwarded deposit. */
  const FEE: nat := 1000

  const TOO_SMALL: string := "Too small. Enter 10000 or more."
  const PROMPT: string :=
    "Please insert the address whom you want " + "to send or the amount of bytes you want " + "to send."
  const FAILED_TO_FIND: string := "Sorry. Failed to find address."

  function AmountChanged(amount: nat): string {
    "Amount changed to " + NatToString(amount) + " bytes."
  }

  function Received(amount: int): string {
    "Received your payment of " + IntToString(amount) + " bytes.\nWaiting for the transaction to confirm."
  }

  function Forwarded(amount: int, destination: string): string {
    IntToString(amount) + " bytes sent to " + destination
  }

  /** Everything in a payment link up to the amount's digits. */
  function LinkPrefix(protocol: string, address: string): string {
    "[Send payment](" + protocol + address + "?amount="
  }

  /** The markdown payment link for `address`, with the amount as a query parameter. */
  function PaymentLink(protocol: string, address: string, amount: nat): string {
    LinkPrefix(protocol, address) + NatToString(amount) + ")"
  }

  /** What the paired wallet reads from a link to `address`: the amount, or nothing for another text. */
  function ReadLinkAmount(link: string, protocol: string, address: string): Option<nat> {
    var p := LinkPrefix(protocol, address);
    if |link| > |p| + 1 && link[..|p|] == p && link[|link| - 1] == ')' && IsDigits(link[|p|..|link| - 1])
    then Some(ParseDecimal(link[|p|..|link| - 1]))
    else None
  }

  /** The link carries its amount: reading the link back gives the amount it was built with. */
  lemma PaymentLinkRoundTrip(protocol: string, address: string, amount: nat)
    ensures ReadLinkAmount(PaymentLink(protocol, address, amount), protocol, address) == Some(amount)
  {
    var p := LinkPrefix(protocol, address);
    var d := NatToString(amount);
    var link := PaymentLink(protocol, address, amount);
    assert link[..|p|] == p;
    assert link[|p|..|link| - 1] == d;
  }
}
