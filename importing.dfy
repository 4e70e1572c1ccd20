/**
 * The pure and list logic of the world importer: how an elapsed time is
 * printed, how the batch size is chosen from the command line, and how a
 * region's chunks are drained into consecutive batches.
 */
module Importing {
  import opened Wrappers
  import opened Decimal

  // ---------------------------------------------------------------------
  // format_duration

  type Nanos = n: nat | n < 1_000_000_000

  /** `std::time::Duration`: whole seconds and the nanoseconds beyond them. */
  datatype Duration = Duration(secs: nat, nanos: Nanos)

  /** `Duration::subsec_millis`. */
  function SubsecMillis(d: Duration): (ms: nat)
    ensures ms < 1000
  {
    d.nanos / 1_000_000
  }

  /** `format_duration`: milliseconds, seconds, minutes or hours by size. */
  function FormatDuration(d: Duration): (r: string)
    ensures |r| >= 3 && r[|r| - 1] == 's'
    ensures r[|r| - 2] == 'm' <==> d.secs < 60
  {
    var secs := d.secs;
    var millis := SubsecMillis(d);
    if secs == 0 then
      Show(millis) + "ms"
    else if secs < 60 then
      Show(secs) + "s " + Show(millis) + "ms"
    else if secs < 3600 then
      Show(secs / 60) + "m " + Show(secs % 60) + "s"
    else
      Show(secs / 3600) + "h " + Show((secs % 3600) / 60) + "m " + Show(secs % 60) + "s"
  }

  /** The units `format_duration` prints, largest first. */
  datatype Unit = Hours | Minutes | Seconds | Millis {
    function Symbol(): string {
      match this
      case Hours => "h"
      case Minutes => "m"
      case Seconds => "s"
      case Millis => "ms"
    }

    function Rank(): nat {
      match this
      case Hours => 3
      case Minutes => 2
      case Seconds => 1
      case Millis => 0
    }

    /** A field in this unit that follows a larger one stays below this. */
    function Bound(): nat {
      match this
      case Hours => 0
      case Minutes => 60
      case Seconds => 60
      case Millis => 1000
    }

    /** Seconds per unit; milliseconds do not count towards whole seconds. */
    function Factor(): nat {
      match this
      case Hours => 3600
      case Minutes => 60
      case Seconds => 1
      case Millis => 0
    }
  }

  /** One printed component such as `12m`. */
  datatype Field = Field(value: nat, unit: Unit)

  /** One field as printed: its value in decimal, then its unit's symbol. */
  function Piece(f: Field): string {
    Show(f.value) + f.unit.Symbol()
  }

  /** The reference printer: fields joined by single spaces. */
  function Render(fs: seq<Field>): string {
    if |fs| == 0 then ""
    else if |fs| == 1 then Piece(fs[0])
    else Piece(fs[0]) + " " + Render(fs[1..])
  }

  lemma Assoc(a: string, b: string, c: string)
    ensures a + b + c == a + (b + c)
  {
  }

  /** Reads a unit symbol off the front of `s`. */
  function ReadUnit(s: string): (r: Option<(Unit, string)>)
    ensures r.Some? ==> |r.value.1| < |s|
  {
    if |s| >= 2 && s[..2] == "ms" then Some((Millis, s[2..]))
    else if |s| >= 1 && s[0] == 'h' then Some((Hours, s[1..]))
    else if |s| >= 1 && s[0] == 'm' then Some((Minutes, s[1..]))
    else if |s| >= 1 && s[0] == 's' then Some((Seconds, s[1..]))
    else None
  }

  /** A unit's symbol, followed by nothing or a space, reads back as that unit. */
  lemma ReadUnitSymbol(u: Unit, tail: string)
    requires tail == [] || tail[0] == ' '
    ensures ReadUnit(u.Symbol() + tail) == Some((u, tail))
  {
    var s := u.Symbol() + tail;
    match u
    case Millis =>
      assert s[..2] == "ms" && s[2..] == tail;
    case Hours =>
      assert s[0] == 'h' && s[1..] == tail;
    case Minutes =>
      assert s[0] == 'm' && s[1..] == tail;
      assert |s| >= 2 ==> s[1] == ' ';
    case Seconds =>
      assert s[0] == 's' && s[1..] == tail;
  }

  /** Reads a printed duration back into its fields. */
  function ReadFields(s: string): Option<seq<Field>>
    decreases |s|
  {
    var (ds, rest) := SplitDigits(s);
    if ds == [] then None
    else match ReadUnit(rest)
      case None => None
      case Some((u, tail)) =>
        var f := Field(Value(ds), u);
        if tail == [] then Some([f])
        else if tail[0] == ' ' then
          match ReadFields(tail[1..])
          case None => None
          case Some(fs) => Some([f] + fs)
        else None
  }

  function Prepend(f: Field, r: Option<seq<Field>>): Option<seq<Field>> {
    match r
    case None => None
    case Some(fs) => Some([f] + fs)
  }

  /** One printed field, then nothing or a space and more text. */
  lemma {:induction false} ReadPiece(f: Field, tail: string)
    requires tail == [] || tail[0] == ' '
    ensures tail == [] ==> ReadFields(Piece(f) + tail) == Some([f])
    ensures tail != [] ==> ReadFields(Piece(f) + tail) == Prepend(f, ReadFields(tail[1..]))
  {
    Assoc(Show(f.value), f.unit.Symbol(), tail);
    SplitDigitsAt(Show(f.value), f.unit.Symbol() + tail);
    ValueOfShow(f.value);
    ReadUnitSymbol(f.unit, tail);
  }

  /** The printed form is unambiguous: reading it back gives the fields. */
  lemma {:induction false} ReadRender(fs: seq<Field>)
    requires |fs| >= 1
    ensures ReadFields(Render(fs)) == Some(fs)
  {
    var f := fs[0];
    if |fs| == 1 {
      ReadPiece(f, "");
      assert Piece(f) + "" == Piece(f);
      assert fs == [f];
    } else {
      var tail := " " + Render(fs[1..]);
      ReadPiece(f, tail);
      Assoc(Piece(f), " ", Render(fs[1..]));
      assert tail[1..] == Render(fs[1..]);
      ReadRender(fs[1..]);
      assert [f] + fs[1..] == fs;
    }
  }

  function TotalSeconds(fs: seq<Field>): nat {
    if fs == [] then 0 else fs[0].value * fs[0].unit.Factor() + TotalSeconds(fs[1..])
  }

  /**
   * Fields in strictly decreasing units; every field after the first is
   * below its unit's bound; milliseconds stay below 1000; a leading field
   * other than milliseconds is not zero.
   */
  ghost predicate Canonical(fs: seq<Field>) {
    && |fs| >= 1
    && (forall i, j :: 0 <= i < j < |fs| ==> fs[i].unit.Rank() > fs[j].unit.Rank())
    && (forall i :: 1 <= i < |fs| ==> fs[i].value < fs[i].unit.Bound())
    && (forall i :: 0 <= i < |fs| && fs[i].unit == Millis ==> fs[i].value < 1000)
    && (fs[0].unit != Millis ==> fs[0].value > 0)
  }

  /** The fields of `FormatDuration(d)` by case. */
  function DurationFields(d: Duration): seq<Field> {
    var secs := d.secs;
    if secs == 0 then [Field(SubsecMillis(d), Millis)]
    else if secs < 60 then [Field(secs, Seconds), Field(SubsecMillis(d), Millis)]
    else if secs < 3600 then [Field(secs / 60, Minutes), Field(secs % 60, Seconds)]
    else [Field(secs / 3600, Hours), Field((secs % 3600) / 60, Minutes), Field(secs % 60, Seconds)]
  }

  /** `format_duration` prints exactly the fields of the duration. */
  lemma FormatDurationRenders(d: Duration)
    ensures FormatDuration(d) == Render(DurationFields(d))
  {
    var secs := d.secs;
    var millis := SubsecMillis(d);
    if secs == 0 {
      assert Render([Field(millis, Millis)]) == Piece(Field(millis, Millis));
    } else if secs < 60 {
      RenderSecondsMillis(secs, millis);
    } else if secs < 3600 {
      RenderMinutesSeconds(secs / 60, secs % 60);
    } else {
      RenderThree(secs / 3600, (secs % 3600) / 60, secs % 60);
    }
  }

  /** `format!("{}s {}ms")` prints two fields. */
  lemma RenderSecondsMillis(s: nat, ms: nat)
    ensures Show(s) + "s " + Show(ms) + "ms" == Render([Field(s, Seconds), Field(ms, Millis)])
  {
    RenderPair(Field(s, Seconds), Field(ms, Millis));
    assert "s " == "s" + " ";
    JoinPair(Show(s), "s", Show(ms), "ms");
  }

  /** `format!("{}m {}s")` prints two fields. */
  lemma RenderMinutesSeconds(m: nat, s: nat)
    ensures Show(m) + "m " + Show(s) + "s" == Render([Field(m, Minutes), Field(s, Seconds)])
  {
    RenderPair(Field(m, Minutes), Field(s, Seconds));
    assert "m " == "m" + " ";
    JoinPair(Show(m), "m", Show(s), "s");
  }

  /** Three fields printed as `format!("{}h {}m {}s")`. */
  lemma RenderThree(h: nat, m: nat, s: nat)
    ensures Show(h) + "h " + Show(m) + "m " + Show(s) + "s"
         == Render([Field(h, Hours), Field(m, Minutes), Field(s, Seconds)])
  {
    RenderPair(Field(m, Minutes), Field(s, Seconds));
    RenderCons(Field(h, Hours), [Field(m, Minutes), Field(s, Seconds)]);
    assert [Field(h, Hours)] + [Field(m, Minutes), Field(s, Seconds)]
        == [Field(h, Hours), Field(m, Minutes), Field(s, Seconds)];
    JoinTriple(Show(h), Show(m), Show(s));
  }

  lemma RenderCons(f: Field, fs: seq<Field>)
    requires fs != []
    ensures Render([f] + fs) == Piece(f) + " " + Render(fs)
  {
    assert ([f] + fs)[1..] == fs;
  }

  lemma RenderPair(a: Field, b: Field)
    ensures Render([a, b]) == Piece(a) + " " + Piece(b)
  {
    RenderCons(a, [b]);
    assert [a] + [b] == [a, b];
  }

  /** `format!("{}s {}ms")` and the like, as two pieces joined by a space. */
  lemma JoinPair(x: string, u: string, y: string, v: string)
    ensures x + (u + " ") + y + v == x + u + " " + (y + v)
  {
  }

  /** `format!("{}h {}m {}s")` as three pieces joined by spaces. */
  lemma JoinTriple(x: string, y: string, z: string)
    ensures x + "h " + y + "m " + z + "s" == x + "h" + " " + (y + "m" + " " + (z + "s"))
  {
    assert "h " == "h" + " " && "m " == "m" + " ";
  }

  /** The fields of a duration are canonical and add up to its whole seconds. */
  lemma DurationFieldsSum(d: Duration)
    ensures Canonical(DurationFields(d))
    ensures TotalSeconds(DurationFields(d)) == d.secs
  {
    var fs := DurationFields(d);
    var secs := d.secs;
    if secs == 0 {
      assert TotalSeconds(fs) == 0;
    } else if secs < 60 {
      assert TotalSeconds(fs[1..]) == 0;
    } else if secs < 3600 {
      assert TotalSeconds(fs[1..]) == secs % 60;
    } else {
      var h, m, s := secs / 3600, (secs % 3600) / 60, secs % 60;
      assert TotalSeconds(fs[2..]) == s;
      assert TotalSeconds(fs[1..]) == m * 60 + s;
      assert h * 3600 + m * 60 + s == secs;
    }
  }

  /**
   * What `format_duration` prints reads back as canonical fields that add
   * up to the whole seconds of `d`; the milliseconds appear, as the last
   * field, exactly when `d` is under a minute.
   */
  lemma FormatDurationMeaning(d: Duration)
    ensures var fs := ReadFields(FormatDuration(d));
      && fs.Some?
      && Canonical(fs.value)
      && TotalSeconds(fs.value) == d.secs
      && (d.secs < 60 ==> fs.value[|fs.value| - 1] == Field(SubsecMillis(d), Millis))
      && (d.secs >= 60 ==> forall i :: 0 <= i < |fs.value| ==> fs.value[i].unit != Millis)
  {
    FormatDurationRenders(d);
    DurationFieldsSum(d);
    ReadRender(DurationFields(d));
  }

  // ---------------------------------------------------------------------
  // get_batch_size

  const DefaultBatchSize: int := 150
  const BatchSizeFlag: string := "--batch_size="
  const I32Min: int := -0x8000_0000
  const I32Max: int := 0x7FFF_FFFF

  predicate StartsWith(s: string, prefix: string) {
    |prefix| <= |s| && s[..|prefix|] == prefix
  }

  /** `args.find(|x| x.starts_with("--batch_size="))`: the first flag argument. */
  function FindFlag(args: seq<string>): (r: Option<string>)
    ensures r.None? <==> forall k :: 0 <= k < |args| ==> !StartsWith(args[k], BatchSizeFlag)
    ensures forall k ::
      (0 <= k < |args| && StartsWith(args[k], BatchSizeFlag)
       && forall j :: 0 <= j < k ==> !StartsWith(args[j], BatchSizeFlag))
      ==> r == Some(args[k])
  {
    if args == [] then None
    else if StartsWith(args[0], BatchSizeFlag) then Some(args[0])
    else FindFlag(args[1..])
  }

  /** `x.split('=').last()`: the text after the last `=`, or all of `x`. */
  function LastSegment(s: string): (r: string)
    ensures |r| <= |s| && s[|s| - |r|..] == r
    ensures forall i :: 0 <= i < |r| ==> r[i] != '='
    ensures |r| < |s| ==> s[|s| - |r| - 1] == '='
  {
    if s == [] || s[|s| - 1] == '=' then []
    else LastSegment(s[..|s| - 1]) + [s[|s| - 1]]
  }

  /**
   * `s.parse::<i32>()`: an optional `+` or `-`, then at least one decimal
   * digit and nothing else, with the value in the range of `i32`.
   */
  function ParseI32(s: string): (r: Option<int>)
    ensures r.Some? ==> I32Min <= r.value <= I32Max
  {
    if s == [] then None
    else
      var signed := s[0] == '+' || s[0] == '-';
      var digits := if signed then s[1..] else s;
      if digits == [] || !AllDigits(digits) then None
      else
        var v: int := if s[0] == '-' then -(Value(digits) as int) else Value(digits);
        if I32Min <= v <= I32Max then Some(v) else None
  }

  /** `i32`'s `Display`: a minus sign for negative values, then the digits. */
  function ShowI32(x: int): string {
    if x < 0 then "-" + Show(-x) else Show(x)
  }

  /** Parsing reads back every `i32` as printed. */
  lemma ParseShowI32(x: int)
    requires I32Min <= x <= I32Max
    ensures ParseI32(ShowI32(x)) == Some(x)
  {
    if x < 0 {
      ValueOfShow(-x);
      ParseNegative(Show(-x), -x);
    } else {
      ValueOfShow(x);
      ParseUnsigned(Show(x), x);
    }
  }

  lemma ParseNegative(ds: string, v: nat)
    requires ds != [] && AllDigits(ds) && Value(ds) == v && v <= -I32Min
    ensures ParseI32("-" + ds) == Some(-(v as int))
  {
    var s := "-" + ds;
    assert s[0] == '-' && s[1..] == ds;
  }

  lemma ParseUnsigned(ds: string, v: nat)
    requires ds != [] && AllDigits(ds) && Value(ds) == v && v <= I32Max
    ensures ParseI32(ds) == Some(v)
  {
    assert IsDigit(ds[0]);
  }

  /** `get_batch_size`: the value of the first flag, or 150 when absent or unparsable. */
  function GetBatchSize(args: seq<string>): (r: int)
    ensures I32Min <= r <= I32Max
  {
    match FindFlag(args)
    case None => DefaultBatchSize
    case Some(flag) =>
      match ParseI32(LastSegment(flag))
      case Some(size) => size
      case None => DefaultBatchSize
  }

  /** Without a `--batch_size=` argument the batch size is 150. */
  lemma BatchSizeDefault(args: seq<string>)
    requires forall k :: 0 <= k < |args| ==> !StartsWith(args[k], BatchSizeFlag)
    ensures GetBatchSize(args) == 150
  {
  }

  /** When the first flag's value does not parse, the batch size is 150. */
  lemma BatchSizeUnparsable(args: seq<string>, k: nat)
    requires k < |args| && StartsWith(args[k], BatchSizeFlag)
    requires forall j :: 0 <= j < k ==> !StartsWith(args[j], BatchSizeFlag)
    requires ParseI32(LastSegment(args[k])).None?
    ensures GetBatchSize(args) == 150
  {
  }

  /** The text after the flag's `=`, when it has no `=` of its own, is its last segment. */
  lemma LastSegmentAfterFlag(v: string)
    requires forall i :: 0 <= i < |v| ==> v[i] != '='
    ensures LastSegment(BatchSizeFlag + v) == v
  {
    var s := BatchSizeFlag + v;
    var r := LastSegment(s);
    assert s[|s| - |v| - 1] == '=';
  }

  /**
   * `--batch_size=<n>` as the first flag, with `n` any `i32` written as
   * Rust prints it, sets the batch size to `n`; later flags are ignored.
   */
  lemma BatchSizeFromFlag(args: seq<string>, k: nat, n: int)
    requires I32Min <= n <= I32Max
    requires k < |args| && args[k] == BatchSizeFlag + ShowI32(n)
    requires forall j :: 0 <= j < k ==> !StartsWith(args[j], BatchSizeFlag)
    ensures GetBatchSize(args) == n
  {
    FlagStartsWith(ShowI32(n));
    assert FindFlag(args) == Some(args[k]);
    ShowI32NoEquals(n);
    LastSegmentAfterFlag(ShowI32(n));
    ParseShowI32(n);
  }

  lemma FlagStartsWith(v: string)
    ensures StartsWith(BatchSizeFlag + v, BatchSizeFlag)
  {
    assert (BatchSizeFlag + v)[..|BatchSizeFlag|] == BatchSizeFlag;
  }

  /** A printed `i32` is a sign and digits, so it holds no `=`. */
  lemma ShowI32NoEquals(n: int)
    ensures forall i :: 0 <= i < |ShowI32(n)| ==> ShowI32(n)[i] != '='
  {
    if n < 0 {
      var t := Show(-n);
      assert forall i :: 1 <= i < |"-" + t| ==> ("-" + t)[i] == t[i - 1];
    }
  }

  /** `get_batch_size() as usize` on a 64-bit target. */
  function AsUsize(i: int): (u: nat)
    requires I32Min <= i <= I32Max
    ensures i >= 0 ==> u == i
    ensures i < 0 ==> u >= 0x1_0000_0000_0000_0000 - 0x8000_0000
    ensures u < 0x1_0000_0000_0000_0000 && (u - i) % 0x1_0000_0000_0000_0000 == 0
  {
    if i >= 0 then i else i + 0x1_0000_0000_0000_0000
  }

  // ---------------------------------------------------------------------
  // The drain loop of import_regions

  /**
   * One pass of the loop: `chunks.drain(..min(batch_size, chunks.len()))`
   * takes that many chunks off the front, in order.
   */
  function DrainOnce<T>(chunks: seq<T>, batchSize: nat): (r: (seq<T>, seq<T>))
    ensures r.0 + r.1 == chunks
    ensures |r.0| == Min(batchSize, |chunks|)
  {
    var k := Min(batchSize, |chunks|);
    (chunks[..k], chunks[k..])
  }

  function Flatten<T>(batches: seq<seq<T>>): seq<T> {
    if batches == [] then [] else batches[0] + Flatten(batches[1..])
  }

  /**
   * The batches `chunks.chunks(batch_size)` would give: consecutive, none
   * empty, none larger than the batch size, all full but the last, and
   * together exactly the chunks in their order.
   */
  function Batches<T>(chunks: seq<T>, batchSize: nat): (bs: seq<seq<T>>)
    requires batchSize >= 1
    ensures Flatten(bs) == chunks
    ensures forall i :: 0 <= i < |bs| ==> 1 <= |bs[i]| <= batchSize
    ensures forall i :: 0 <= i < |bs| - 1 ==> |bs[i]| == batchSize
    decreases |chunks|
  {
    if chunks == [] then []
    else
      var (batch, rest) := DrainOnce(chunks, batchSize);
      var tail := Batches(rest, batchSize);
      assert ([batch] + tail)[1..] == tail;
      [batch] + tail
  }

  /**
   * `while !chunks.is_empty() { drain a batch; process it }`: the batches
   * processed, in order.
   */
  method DrainBatches<T>(chunks: seq<T>, batchSize: nat) returns (batches: seq<seq<T>>)
    requires batchSize >= 1
    ensures batches == Batches(chunks, batchSize)
  {
    var rest := chunks;
    batches := [];
    while rest != []
      invariant batches + Batches(rest, batchSize) == Batches(chunks, batchSize)
      decreases |rest|
    {
      var batch := DrainOnce(rest, batchSize).0;
      var remaining := DrainOnce(rest, batchSize).1;
      BatchesStep(batches, rest, batchSize);
      batches := batches + [batch];
      rest := remaining;
    }
  }

  /**
   * One pass of the loop, seen from its invariant: the batch drained from
   * `chunks` followed by the batches of what is left are the batches of
   * `chunks`.
   */
  lemma BatchesStep<T>(done: seq<seq<T>>, chunks: seq<T>, batchSize: nat)
    requires batchSize >= 1 && chunks != []
    ensures done + [DrainOnce(chunks, batchSize).0] + Batches(DrainOnce(chunks, batchSize).1, batchSize)
         == done + Batches(chunks, batchSize)
  {
    var batch := DrainOnce(chunks, batchSize).0;
    var tail := Batches(DrainOnce(chunks, batchSize).1, batchSize);
    assert Batches(chunks, batchSize) == [batch] + tail;
    assert done + [batch] + tail == done + ([batch] + tail);
  }

  /**
   * With a batch size of 0 a pass takes nothing, so the loop never ends on
   * a non-empty region; the command line `--batch_size=0` produces exactly
   * that batch size.
   */
  lemma ZeroBatchSizeNeverDrains<T>(chunks: seq<T>)
    requires chunks != []
    ensures AsUsize(GetBatchSize(["ferrumc", "--batch_size=0"])) == 0
    ensures DrainOnce(chunks, 0) == ([], chunks)
  {
    var args := ["ferrumc", "--batch_size=0"];
    assert !StartsWith(args[0], BatchSizeFlag);
    assert args[1] == BatchSizeFlag + ShowI32(0);
    BatchSizeFromFlag(args, 1, 0);
  }

  /**
   * The batch size the import loop can use: the one `get_batch_size`
   * chooses, except that 0, on which the loop would never end, falls back
   * to 150.
   */
  function ImportBatchSize(args: seq<string>): (n: nat)
    ensures n >= 1
    ensures AsUsize(GetBatchSize(args)) >= 1 ==> n == AsUsize(GetBatchSize(args))
    ensures AsUsize(GetBatchSize(args)) == 0 ==> n == DefaultBatchSize
  {
    var n := AsUsize(GetBatchSize(args));
    if n == 0 then DefaultBatchSize else n
  }

  /** A batch size at least the region's size takes the whole region as one batch. */
  lemma WholeRegionOneBatch<T>(chunks: seq<T>, batchSize: nat)
    requires 1 <= |chunks| <= batchSize
    ensures Batches(chunks, batchSize) == [chunks]
  {
    assert chunks[..|chunks|] == chunks;
    assert DrainOnce(chunks, batchSize) == (chunks, []);
    assert Batches<T>([], batchSize) == [];
  }

  /**
   * A negative `--batch_size` is cast to a `usize` near 2^64, so the import
   * loop takes each region of realistic size in a single batch.
   */
  lemma NegativeBatchSizeOneBatch<T>(size: int, chunks: seq<T>)
    requires I32Min <= size < 0
    requires 1 <= |chunks| <= 0x1_0000_0000_0000_0000 - 0x8000_0000
    ensures Batches(chunks, AsUsize(size)) == [chunks]
  {
    WholeRegionOneBatch(chunks, AsUsize(size));
  }

  /**
   * The per-region loop of `import_regions` with the batch size taken from
   * the command line: every chunk is processed once, in order, in batches
   * of at most that size.
   */
  method ImportRegion<T>(args: seq<string>, chunks: seq<T>) returns (batches: seq<seq<T>>)
    ensures batches == Batches(chunks, ImportBatchSize(args))
    ensures Flatten(batches) == chunks
    ensures forall i :: 0 <= i < |batches| ==> 1 <= |batches[i]| <= ImportBatchSize(args)
  {
    var batchSize := ImportBatchSize(args);
    batches := DrainBatches(chunks, batchSize);
  }
}
