/** The price writer's durable state and memory, as values. */
module Publication {
  // The database is the log of the rows that inserts physically wrote, the candle sums that the materialized
  // views add up as rows are written, and the writer's checkpoint. An insert statement is atomic; `left` counts
  // the statements the server still completes before the process is cut off, so every crash point is one value of it.

  import opened Options

  datatype Row =
    | Block(height: int, timestamp: int, spec: int)
    | Price(asset: int, height: int, millis: Option<int>, usdPrice: int, buy: int, sell: int)
    | Trade(asset: int, height: int, account: string, buy: int, sell: int)
    | Asset(asset: int, metadata: string)
    | Upgrade(height: int, spec: int, prevSpec: int)
    | ErrorName(spec: int, pallet: int, error: int, name: string)

  datatype Key =
    | BlockKey(height: int)
    | PriceKey(asset: int, height: int)
    | TradeKey(asset: int, height: int, account: string)
    | AssetKey(asset: int)
    | UpgradeKey(height: int, spec: int, prevSpec: int)
    | ErrorNameKey(spec: int, pallet: int, error: int)

  function KeyOf(r: Row): Key {
    match r
    case Block(h, _, _) => BlockKey(h)
    case Price(a, h, _, _, _, _) => PriceKey(a, h)
    case Trade(a, h, account, _, _) => TradeKey(a, h, account)
    case Asset(a, _) => AssetKey(a)
    case Upgrade(h, s, p) => UpgradeKey(h, s, p)
    case ErrorName(s, p, e, _) => ErrorNameKey(s, p, e)
  }

  /** The four tables whose rows are looked up by key before they are inserted. */
  predicate Probed(r: Row) {
    r.Block? || r.Price? || r.Trade? || r.Upgrade?
  }

  function Keys(rows: seq<Row>): set<Key> {
    set r <- rows :: KeyOf(r)
  }

  predicate BadTimestamp(r: Row) {
    r.Price? && (r.millis.None? || r.millis.value < 0 || (r.millis.value == 0 && r.height != 0))
  }

  /** One candle: an asset and the start of its interval. */
  datatype Candle = Candle(asset: int, start: int)

  datatype Volume = Volume(buy: int, sell: int)

  datatype Tables = Tables(log: seq<Row>, candles: map<Candle, Volume>, checkpoint: Option<int>)

  /** What a sequence of insert statements left behind; `ok` is false when it was cut off. */
  datatype Outcome = Outcome(db: Tables, left: nat, ok: bool)

  // ---------------------------------------------------------------- one insert

  function Put(acc: seq<Row>, r: Row): seq<Row> {
    if acc == [] then [r]
    else if KeyOf(acc[0]) == KeyOf(r) then [r] + acc[1..]
    else [acc[0]] + Put(acc[1..], r)
  }

  /** One row per key: the first occurrence's position, the last occurrence's value. */
  function UniqueByKey(rows: seq<Row>): seq<Row> {
    if rows == [] then [] else Put(UniqueByKey(rows[..|rows|-1]), rows[|rows|-1])
  }

  /** The rows an insert still has to write: replaced tables take all of them, probed ones the absent keys. */
  function Fresh(rows: seq<Row>, present: set<Key>): seq<Row> {
    if rows == [] then []
    else (if Probed(rows[0]) && KeyOf(rows[0]) in present then [] else [rows[0]]) + Fresh(rows[1..], present)
  }

  function AddToCandle(bucket: int -> int, candles: map<Candle, Volume>, r: Row): map<Candle, Volume> {
    if r.Price? && r.millis.Some? && r.millis.value > 0 then
      var c := Candle(r.asset, bucket(r.millis.value));
      var v := if c in candles then candles[c] else Volume(0, 0);
      candles[c := Volume(v.buy + r.buy, v.sell + r.sell)]
    else candles
  }

  function AddToCandles(bucket: int -> int, candles: map<Candle, Volume>, rows: seq<Row>): map<Candle, Volume> {
    if rows == [] then candles
    else AddToCandle(bucket, AddToCandles(bucket, candles, rows[..|rows|-1]), rows[|rows|-1])
  }

  function Written(bucket: int -> int, db: Tables, rows: seq<Row>): Tables {
    db.(log := db.log + rows, candles := AddToCandles(bucket, db.candles, rows))
  }

  function InsertRows(bucket: int -> int, db: Tables, left: nat, rows: seq<Row>): Outcome {
    var absent := Fresh(UniqueByKey(rows), Keys(db.log));
    if absent == [] then Outcome(db, left, true)
    else if (exists r <- absent :: BadTimestamp(r)) || left == 0 then Outcome(db, left, false)
    else Outcome(Written(bucket, db, absent), left - 1, true)
  }

  function InsertChunks(bucket: int -> int, db: Tables, left: nat, rows: seq<Row>, size: nat): Outcome
    requires size > 0
    decreases |rows|
  {
    if rows == [] then Outcome(db, left, true)
    else
      var n := Min(size, |rows|);
      var o := InsertRows(bucket, db, left, rows[..n]);
      if o.ok then InsertChunks(bucket, o.db, o.left, rows[n..], size) else o
  }

  function InsertTables(bucket: int -> int, db: Tables, left: nat, tables: seq<seq<Row>>, size: nat): Outcome
    requires size > 0
    decreases |tables|
  {
    if tables == [] then Outcome(db, left, true)
    else
      var o := InsertChunks(bucket, db, left, tables[0], size);
      if o.ok then InsertTables(bucket, o.db, o.left, tables[1..], size) else o
  }

  // ---------------------------------------------------------------- the writer's memory

  datatype Buffers = Buffers(blocks: seq<Row>, prices: seq<Row>, trades: seq<Row>,
                             assets: seq<Row>, upgrades: seq<Row>, errorNames: seq<Row>)

  const NO_ROWS := Buffers([], [], [], [], [], [])

  /** The order both publication paths write the tables in. */
  function InOrder(b: Buffers): seq<seq<Row>> {
    [b.blocks, b.prices, b.trades, b.assets, b.upgrades, b.errorNames]
  }

  predicate Typed(b: Buffers) {
    && (forall r <- b.blocks :: r.Block?) && (forall r <- b.prices :: r.Price?) && (forall r <- b.trades :: r.Trade?)
    && (forall r <- b.assets :: r.Asset?) && (forall r <- b.upgrades :: r.Upgrade?)
    && (forall r <- b.errorNames :: r.ErrorName?)
  }

  function Buffered(b: Buffers, r: Row): Buffers {
    match r
    case Block(_, _, _) => b.(blocks := b.blocks + [r])
    case Price(_, _, _, _, _, _) => b.(prices := b.prices + [r])
    case Trade(_, _, _, _, _) => b.(trades := b.trades + [r])
    case Asset(_, _) => b.(assets := b.assets + [r])
    case Upgrade(_, _, _) => b.(upgrades := b.upgrades + [r])
    case ErrorName(_, _, _, _) => b.(errorNames := b.errorNames + [r])
  }

  function AllBuffered(b: Buffers, rows: seq<Row>): Buffers {
    if rows == [] then b else Buffered(AllBuffered(b, rows[..|rows|-1]), rows[|rows|-1])
  }

  function Staged(deferred: Buffers, batch: Buffers): Buffers {
    Buffers(deferred.blocks + batch.blocks, deferred.prices + batch.prices, deferred.trades + batch.trades,
            deferred.assets + batch.assets, deferred.upgrades + batch.upgrades, deferred.errorNames + batch.errorNames)
  }

  datatype Config = Config(size: nat, defer: bool, publishAt: Option<int>, fromGenesis: bool, fromBlock: int)

  datatype Proc = Proc(batch: Buffers, deferred: Buffers, pending: Option<int>, published: bool)

  const FRESH_PROC := Proc(NO_ROWS, NO_ROWS, None, false)

  /** A process step: the durable outcome, and the memory it leaves if the process is still there. */
  datatype Step = Step(out: Outcome, proc: Proc)

  function SaveCheckpoint(o: Outcome, height: int): Outcome {
    if !o.ok then o
    else if o.left == 0 then o.(ok := false)
    else Outcome(o.db.(checkpoint := Some(height)), o.left - 1, true)
  }

  function PublishDeferred(cfg: Config, bucket: int -> int, db: Tables, left: nat, p: Proc): Step
    requires cfg.size > 0
  {
    if !cfg.defer then Step(Outcome(db, left, true), p)
    else
      var staged := Staged(p.deferred, p.batch);
      var o := InsertTables(bucket, db, left, InOrder(staged), cfg.size);
      var o' := if p.pending.Some? then SaveCheckpoint(o, p.pending.value) else o;
      Step(o', if o.ok then p.(batch := NO_ROWS, deferred := NO_ROWS, published := p.published || o'.ok)
               else p.(batch := NO_ROWS, deferred := staged))
  }

  function Transact(cfg: Config, bucket: int -> int, db: Tables, left: nat, p: Proc, rows: seq<Row>, next: int): Step
    requires cfg.size > 0
  {
    var batch := AllBuffered(p.batch, rows);
    if cfg.defer then
      var q := p.(batch := NO_ROWS, deferred := Staged(p.deferred, batch), pending := Some(Max(p.pending.Or(0), next)));
      if !p.published && cfg.publishAt.Some? && next >= cfg.publishAt.value
      then PublishDeferred(cfg, bucket, db, left, q)
      else Step(Outcome(db, left, true), q)
    else
      var o := InsertTables(bucket, db, left, InOrder(batch), cfg.size);
      Step(SaveCheckpoint(o, next), p.(batch := NO_ROWS))
  }

  /** The height a connecting process resumes after. */
  function ResumeHead(cfg: Config, db: Tables): int {
    if cfg.fromGenesis then -1 else db.checkpoint.Or(0)
  }
}
