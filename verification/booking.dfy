/**
 * The booking cart of components/booking-section.tsx: the state fields of
 * the component and the handlers that change them. `Math.random()` and
 * `Date.now()` are inputs of `Confirm`.
 */
module BookingCart {

  /** One confirmed booking: `{ id, from, to, count, price }`. */
  datatype Booking = Booking(id: int, from: string, to: string, count: nat, price: nat)

  /** Sum of the `price` of the bookings. */
  function SumPrices(bs: seq<Booking>): nat
    decreases |bs|
  {
    if bs == [] then 0 else SumPrices(bs[..|bs| - 1]) + bs[|bs| - 1].price
  }

  /** Sum of the ticket counts of the bookings. */
  function SumCounts(bs: seq<Booking>): nat
    decreases |bs|
  {
    if bs == [] then 0 else SumCounts(bs[..|bs| - 1]) + bs[|bs| - 1].count
  }

  /** Appending a booking adds exactly its price to the sum. */
  lemma SumPricesAppend(bs: seq<Booking>, b: Booking)
    ensures SumPrices(bs + [b]) == SumPrices(bs) + b.price
    ensures SumCounts(bs + [b]) == SumCounts(bs) + b.count
  {
    assert (bs + [b])[..|bs|] == bs;
  }

  /**
   * `Math.floor(Math.random() * (400 - 150 + 1)) + 150`, where `draw` is
   * `Math.floor(Math.random() * 251)`: a whole number of rupees from 150 to
   * 400, each of which some draw gives.
   */
  function PricePerTicket(draw: nat): (p: nat)
    requires draw <= 250
    ensures 150 <= p <= 400
    ensures p - 150 == draw
  {
    draw + 150
  }

  /** Every price from 150 to 400 is drawn by some `Math.random()` outcome. */
  lemma EveryPriceDrawn(p: nat)
    requires 150 <= p <= 400
    ensures exists draw: nat | draw <= 250 :: PricePerTicket(draw) == p
  {
    assert PricePerTicket(p - 150) == p;
  }

  /** The price of one booking lies between 150 and 400 per ticket. */
  ghost predicate PriceInRange(b: Booking)
  {
    150 * b.count <= b.price <= 400 * b.count
  }

  /** The booking `handleConfirm` builds: the price is the drawn price per ticket times the ticket count. */
  function NewBooking(id: int, from: string, to: string, count: nat, draw: nat): (b: Booking)
    requires draw <= 250
    ensures b.price == PricePerTicket(draw) * count && PriceInRange(b)
    ensures b.id == id && b.from == from && b.to == to && b.count == count
  {
    Booking(id, from, to, count, PricePerTicket(draw) * count)
  }

  /** A cart whose every booking is in range costs between 150 and 400 per ticket in all. */
  lemma {:induction false} TotalInRange(bs: seq<Booking>)
    requires forall i | 0 <= i < |bs| :: PriceInRange(bs[i])
    ensures 150 * SumCounts(bs) <= SumPrices(bs) <= 400 * SumCounts(bs)
    decreases |bs|
  {
    if bs != [] {
      var init := bs[..|bs| - 1];
      TotalInRange(init);
      assert PriceInRange(bs[|bs| - 1]);
    }
  }

  class BookingSection {
    var from: string
    var to: string
    var selectedTickets: int
    var passengers: seq<Booking>
    var totalPrice: int

    /**
     * The ticket stepper stays at 1 or above, every booking is priced within
     * range, and the total is the sum of the booking prices.
     */
    ghost predicate Valid()
      reads this
    {
      && selectedTickets >= 1
      && (forall i | 0 <= i < |passengers| :: PriceInRange(passengers[i]))
      && totalPrice == SumPrices(passengers)
    }

    /** The initial state of the component. */
    constructor()
      ensures Valid()
      ensures from == "" && to == "" && selectedTickets == 1 && passengers == [] && totalPrice == 0
    {
      from, to, selectedTickets, passengers, totalPrice := "", "", 1, [], 0;
    }

    /** The `onChange` of the From field. */
    method SetFrom(value: string)
      modifies this
      ensures from == value
      ensures to == old(to) && selectedTickets == old(selectedTickets)
      ensures passengers == old(passengers) && totalPrice == old(totalPrice)
    {
      from := value;
    }

    /** The `onChange` of the To field. */
    method SetTo(value: string)
      modifies this
      ensures to == value
      ensures from == old(from) && selectedTickets == old(selectedTickets)
      ensures passengers == old(passengers) && totalPrice == old(totalPrice)
    {
      to := value;
    }

    /**
     * `handleConfirm`. With `from` or `to` empty it only alerts. Otherwise it
     * appends one booking, priced at the drawn price per ticket times the
     * selected tickets and stamped with `now`, adds its price to the total,
     * and clears the form.
     */
    method Confirm(draw: nat, now: int) returns (alerted: bool)
      requires Valid() && draw <= 250
      modifies this
      ensures Valid()
      ensures alerted <==> old(from) == "" || old(to) == ""
      ensures alerted ==>
                && from == old(from) && to == old(to) && selectedTickets == old(selectedTickets)
                && passengers == old(passengers) && totalPrice == old(totalPrice)
      ensures !alerted ==>
                && passengers == old(passengers) + [NewBooking(now, old(from), old(to), old(selectedTickets), draw)]
                && totalPrice == old(totalPrice) + PricePerTicket(draw) * old(selectedTickets)
                && from == "" && to == "" && selectedTickets == 1
    {
      if from == "" || to == "" {
        return true;
      }
      var pricePerTicket := PricePerTicket(draw);
      var total := pricePerTicket * selectedTickets;
      var newBooking := NewBooking(now, from, to, selectedTickets, draw);
      SumPricesAppend(passengers, newBooking);
      passengers := passengers + [newBooking];
      totalPrice := totalPrice + total;
      from, to := "", "";
      selectedTickets := 1;
      return false;
    }

    /** `handleReset`: no bookings and a zero total; the form is left as it is. */
    method Reset()
      requires Valid()
      modifies this
      ensures Valid()
      ensures passengers == [] && totalPrice == 0
      ensures from == old(from) && to == old(to) && selectedTickets == old(selectedTickets)
    {
      passengers := [];
      totalPrice := 0;
    }

    /** The minus button: one ticket fewer, but never below 1. */
    method Decrement()
      requires Valid()
      modifies this
      ensures Valid()
      ensures old(selectedTickets) > 1 ==> selectedTickets == old(selectedTickets) - 1
      ensures old(selectedTickets) == 1 ==> selectedTickets == 1
      ensures from == old(from) && to == old(to) && passengers == old(passengers) && totalPrice == old(totalPrice)
    {
      selectedTickets := if 1 > selectedTickets - 1 then 1 else selectedTickets - 1;
    }

    /** The plus button: one ticket more. */
    method Increment()
      requires Valid()
      modifies this
      ensures Valid()
      ensures selectedTickets == old(selectedTickets) + 1
      ensures from == old(from) && to == old(to) && passengers == old(passengers) && totalPrice == old(totalPrice)
    {
      selectedTickets := selectedTickets + 1;
    }
  }
}
