/** The two decoders of a swap event. */
module SwapDecoding {
  // The live decoder reads generated codecs, the repair one stored arguments.
  import opened Options

  datatype Leg = Leg(asset: int, amount: nat)

  datatype Trade = Trade(account: Option<string>, inputs: seq<Leg>, outputs: seq<Leg>)

  /** A decoded account: plain text, text wrapped in a `value` field, or neither. */
  datatype Who = Account(id: string) | Wrapped(id: string) | Nobody

  function NormalizeAccount(w: Who): Option<string> {
    if !w.Nobody? && w.id != "" then Some(w.id) else None
  }

  /** The shapes event arguments take across runtimes. `price` is the sale price of a sell, the buy price of a buy. */
  datatype Args =
    | Named(who: Who, assetIn: int, assetOut: int, amount: nat, price: nat)
    | Positional(who: Who, first: int, second: int, amount: nat, price: nat)
    | Fill(swapper: Who, filler: string, operation: string, inputs: seq<Leg>, outputs: seq<Leg>)

  /** `codec` says whether a generated codec of the block's runtime matches the event. */
  datatype Event = Event(name: string, args: Args, codec: bool)

  const LEGACY_SELLS: set<string> := {"XYK.SellExecuted", "LBP.SellExecuted"}
  const LEGACY_BUYS: set<string> := {"XYK.BuyExecuted", "LBP.BuyExecuted"}
  const BROADCASTS: set<string> := {"Broadcast.Swapped", "Broadcast.Swapped3"}

  /** From spec 124 on only the unified events count; before it only the per-pallet ones. */
  predicate IsSwapEvent(name: string, spec: nat) {
    if spec >= 124 then name in BROADCASTS else name in LEGACY_SELLS + LEGACY_BUYS
  }

  // ---------------------------------------------------------------- the live decoder

  datatype SwapFields = SwapFields(who: Who, assetIn: int, assetOut: int, amountIn: nat, amountOut: nat)

  function FieldsFromStruct(sell: bool, a: Args): SwapFields
    requires a.Named?
  {
    if sell then SwapFields(a.who, a.assetIn, a.assetOut, a.amount, a.price)
    else SwapFields(a.who, a.assetIn, a.assetOut, a.price, a.amount)
  }

  function FieldsFromTuple(sell: bool, a: Args): SwapFields
    requires a.Positional?
  {
    if sell then SwapFields(a.who, a.first, a.second, a.amount, a.price)
    else SwapFields(a.who, a.second, a.first, a.price, a.amount)
  }

  const AMOUNT_INVERTED_LEGACY_EVENTS: set<string> := {"LBP.BuyExecuted"}

  function DecodeLegacyLive(e: Event): Option<Trade> {
    if e.name !in LEGACY_SELLS + LEGACY_BUYS || !e.codec || e.args.Fill? then None
    else
      var sell := e.name in LEGACY_SELLS;
      var f := if e.args.Positional? then FieldsFromTuple(sell, e.args) else FieldsFromStruct(sell, e.args);
      var inverted := e.name in AMOUNT_INVERTED_LEGACY_EVENTS;
      Some(Trade(NormalizeAccount(f.who),
                 [Leg(f.assetIn, if inverted then f.amountOut else f.amountIn)],
                 [Leg(f.assetOut, if inverted then f.amountIn else f.amountOut)]))
  }

  /** Exact-out XYK and LBP fills report their two amounts against the wrong legs. */
  function CorrectedBroadcastTrade(a: Args): Trade
    requires a.Fill?
  {
    if a.operation == "ExactOut" && (a.filler == "XYK" || a.filler == "LBP") && |a.inputs| == 1 && |a.outputs| == 1 then
      Trade(NormalizeAccount(a.swapper), [a.inputs[0].(amount := a.outputs[0].amount)],
            [a.outputs[0].(amount := a.inputs[0].amount)])
    else Trade(NormalizeAccount(a.swapper), a.inputs, a.outputs)
  }

  function DecodeLive(e: Event): Option<Trade> {
    var legacy := DecodeLegacyLive(e);
    if legacy.Some? then legacy
    else if e.name in BROADCASTS && e.codec && e.args.Fill? then Some(CorrectedBroadcastTrade(e.args))
    else None
  }

  // ---------------------------------------------------------------- the repair decoder

  function Legs(inverted: bool, account: Option<string>, input: Leg, output: Leg): Trade {
    if inverted then Trade(account, [Leg(input.asset, output.amount)], [Leg(output.asset, input.amount)])
    else Trade(account, [input], [output])
  }

  /** Reads the arguments by name of the event alone; a shape the name does not go with is no trade here. */
  function LegacySwapLegs(e: Event): Option<Trade> {
    var sell := e.name == "XYK.SellExecuted" || e.name == "LBP.SellExecuted";
    var buy := e.name == "XYK.BuyExecuted" || e.name == "LBP.BuyExecuted";
    if !sell && !buy then None
    else
      var inverted := e.name == "LBP.BuyExecuted";
      match e.args
      case Positional(who, first, second, amount, price) =>
        var fixed, derived := Leg(first, amount), Leg(second, price);
        Some(if sell then Legs(inverted, NormalizeAccount(who), fixed, derived)
             else Legs(inverted, NormalizeAccount(who), derived, fixed))
      case Named(who, assetIn, assetOut, amount, price) =>
        Some(if sell then Legs(inverted, NormalizeAccount(who), Leg(assetIn, amount), Leg(assetOut, price))
             else Legs(inverted, NormalizeAccount(who), Leg(assetIn, price), Leg(assetOut, amount)))
      case Fill(_, _, _, _, _) => None
  }

  predicate StartsWith(s: string, prefix: string) { |prefix| <= |s| && s[..|prefix|] == prefix }

  function DecodeRepair(e: Event): Option<Trade> {
    var legacy := LegacySwapLegs(e);
    if legacy.Some? then legacy
    else if !StartsWith(e.name, "Broadcast.Swapped") || !e.args.Fill? then None
    else
      var a := e.args;
      if a.operation == "ExactOut" && (a.filler == "XYK" || a.filler == "LBP") && |a.inputs| == 1
        && |a.outputs| == 1 then
        Some(Trade(NormalizeAccount(a.swapper),
                   [Leg(a.inputs[0].asset, a.outputs[0].amount)], [Leg(a.outputs[0].asset, a.inputs[0].amount)]))
      else Some(Trade(NormalizeAccount(a.swapper), a.inputs, a.outputs))
  }

  lemma BroadcastNames(name: string)
    requires name in BROADCASTS
    ensures StartsWith(name, "Broadcast.Swapped") && name !in LEGACY_SELLS + LEGACY_BUYS
  {
    assert "Broadcast.Swapped"[0] == 'B' && "Broadcast.Swapped3"[0] == 'B';
    assert "XYK.SellExecuted"[0] == "XYK.BuyExecuted"[0] == 'X' && "LBP.SellExecuted"[0] == "LBP.BuyExecuted"[0] == 'L';
    assert "Broadcast.Swapped3"[..17] == "Broadcast.Swapped";
  }

  lemma LegacyNames(name: string)
    requires name in LEGACY_SELLS + LEGACY_BUYS
    ensures name !in BROADCASTS && !StartsWith(name, "Broadcast.Swapped")
    ensures name in LEGACY_SELLS <==> name == "XYK.SellExecuted" || name == "LBP.SellExecuted"
    ensures name in LEGACY_BUYS <==> name == "XYK.BuyExecuted" || name == "LBP.BuyExecuted"
    ensures name !in LEGACY_SELLS || name !in LEGACY_BUYS
  {
    assert "XYK.SellExecuted"[4] == 'S' && "XYK.BuyExecuted"[4] == 'B' && "LBP.SellExecuted"[4] == 'S'
      && "LBP.BuyExecuted"[4] == 'B';
    assert "XYK.SellExecuted"[0] == 'X' && "XYK.BuyExecuted"[0] == 'X' && "LBP.SellExecuted"[0] == 'L'
      && "LBP.BuyExecuted"[0] == 'L';
    assert "Broadcast.Swapped"[0] == 'B' && "Broadcast.Swapped3"[0] == 'B';
  }

  /**
   A codec of the block's runtime matches the event, or its arguments have a shape that goes with no event
   of its name.
   */
  predicate ReadAlike(e: Event) {
    e.codec || (e.args.Fill? <==> e.name in LEGACY_SELLS + LEGACY_BUYS)
  }

  /** The events that trade: the two unified names from spec 124 on, the four per-pallet names before it. */
  lemma TradingEvents(name: string, spec: nat)
    ensures IsSwapEvent(name, spec) <==>
            if spec < 124 then
              || name == "XYK.SellExecuted" || name == "XYK.BuyExecuted"
              || name == "LBP.SellExecuted" || name == "LBP.BuyExecuted"
            else name == "Broadcast.Swapped" || name == "Broadcast.Swapped3"
    ensures IsSwapName(name) <==> exists s: nat :: IsSwapEvent(name, s)
  {
    assert IsSwapEvent(name, 0) <==> name in LEGACY_SELLS + LEGACY_BUYS;
    assert IsSwapEvent(name, 124) <==> name in BROADCASTS;
  }

  /** Who traded: the text, plain or wrapped, unless it is empty. */
  lemma TraderIsItsText(w: Who, id: string)
    ensures NormalizeAccount(w) == Some(id) <==> id != "" && (w == Account(id) || w == Wrapped(id))
  {
  }

  /** A trade of one asset against another. */
  predicate Swaps(t: Option<Trade>, who: Who, sold: int, paid: nat, bought: int, received: nat) {
    && t.Some? && t.value.account == NormalizeAccount(who)
    && t.value.inputs == [Leg(sold, paid)] && t.value.outputs == [Leg(bought, received)]
  }

  /**
   Per-pallet events: a sell fixes what is paid, a buy what is received; the LBP reports a buy's amounts
   the other way round.
  */
  lemma LegacyTrades(who: Who, x: int, y: int, amount: nat, price: nat)
    ensures forall name <- LEGACY_SELLS ::
              && Swaps(DecodeLive(Event(name, Named(who, x, y, amount, price), true)), who, x, amount, y, price)
              && Swaps(DecodeLive(Event(name, Positional(who, x, y, amount, price), true)), who, x, amount, y, price)
    ensures Swaps(DecodeLive(Event("XYK.BuyExecuted", Named(who, x, y, amount, price), true)), who, x, price, y, amount)
    ensures Swaps(DecodeLive(Event("XYK.BuyExecuted", Positional(who, x, y, amount, price), true)), who, y, price, x,
                  amount)
    ensures Swaps(DecodeLive(Event("LBP.BuyExecuted", Named(who, x, y, amount, price), true)), who, x, amount, y, price)
    ensures Swaps(DecodeLive(Event("LBP.BuyExecuted", Positional(who, x, y, amount, price), true)), who, y, amount, x,
                  price)
  {
    forall name | name in LEGACY_SELLS + LEGACY_BUYS
      ensures name in LEGACY_SELLS <==> name == "XYK.SellExecuted" || name == "LBP.SellExecuted"
      ensures name in LEGACY_SELLS ==> name !in LEGACY_BUYS
    {
      LegacyNames(name);
    }
    assert "XYK.BuyExecuted"[0] != "LBP.BuyExecuted"[0];
    assert "LBP.SellExecuted"[4] != "LBP.BuyExecuted"[4] && "XYK.SellExecuted"[0] != "LBP.BuyExecuted"[0];
  }

  /**
   Unified events: an exact-out fill of one asset by another in an XYK or LBP pool has its two amounts
   exchanged, no other.
  */
  lemma BroadcastTrades(name: string, who: Who, filler: string, operation: string, inputs: seq<Leg>, outputs: seq<Leg>)
    requires name in BROADCASTS
    ensures var t := DecodeLive(Event(name, Fill(who, filler, operation, inputs, outputs), true));
            if operation == "ExactOut" && (filler == "XYK" || filler == "LBP") && |inputs| == 1 && |outputs| == 1
            then Swaps(t, who, inputs[0].asset, outputs[0].amount, outputs[0].asset, inputs[0].amount)
            else t == Some(Trade(NormalizeAccount(who), inputs, outputs))
  {
    BroadcastNames(name);
  }

  predicate IsSwapName(name: string) { name in LEGACY_SELLS + LEGACY_BUYS + BROADCASTS }

  /**
   The two decoders make the same of a swap event exactly when a codec matches it or its shape is of no
   use to either. Otherwise the repair reads a trade that the live pipeline skips.
   */
  lemma DecodersAgreeExactly(e: Event)
    requires IsSwapName(e.name)
    ensures DecodeRepair(e) == DecodeLive(e) <==> ReadAlike(e)
    ensures !ReadAlike(e) ==> DecodeLive(e).None? && DecodeRepair(e).Some?
    ensures ReadAlike(e) && !e.codec ==> DecodeLive(e).None?
  {
    if e.name in BROADCASTS {
      BroadcastNames(e.name);
    } else {
      LegacyNames(e.name);
    }
  }
}
