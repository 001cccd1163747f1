/**
 * `PerformanceMonitor` from utilities.py: every capture appends one metrics
 * record to the history, which then keeps only its 1000 most recent entries.
 * The system sampling (psutil) and the clock are inputs: a capture receives
 * the reading, or `None` when sampling raised.
 */
module Performance {
  import opened Wrappers
  import opened Text

  /** The history keeps at most this many records. */
  const MaxHistory: nat := 1000

  /** What psutil reports at one instant; memory in bytes. */
  datatype SystemReading = SystemReading(
    cpuPercent: real,
    memoryUsedBytes: nat,
    networkBytesSent: nat,
    networkBytesRecv: nat,
    diskIoRead: nat,
    diskIoWrite: nat)

  /** One `PerformanceMetrics` record; `timestamp` is `datetime.now()` in microseconds. */
  datatype Metrics = Metrics(
    timestamp: int,
    cpuPercent: real,
    memoryMb: real,
    networkBytesSent: nat,
    networkBytesRecv: nat,
    diskIoRead: nat,
    diskIoWrite: nat,
    activeDownloads: int,
    downloadSpeedMbps: real)

  /** The record built from a successful reading (memory converted from bytes to MiB). */
  function FromReading(r: SystemReading, now: int, activeDownloads: int): (m: Metrics)
    ensures m.timestamp == now && m.activeDownloads == activeDownloads
    ensures m.memoryMb * 1048576.0 == r.memoryUsedBytes as real
    ensures m.cpuPercent == r.cpuPercent
    ensures m.networkBytesSent == r.networkBytesSent && m.networkBytesRecv == r.networkBytesRecv
    ensures m.diskIoRead == r.diskIoRead && m.diskIoWrite == r.diskIoWrite
    ensures m.downloadSpeedMbps == 0.0
  {
    Metrics(now, r.cpuPercent, r.memoryUsedBytes as real / 1024.0 / 1024.0,
            r.networkBytesSent, r.networkBytesRecv, r.diskIoRead, r.diskIoWrite,
            activeDownloads, 0.0)
  }

  /** The all-zero record returned when sampling raised; it keeps only the time and the download count. */
  function ZeroMetrics(now: int, activeDownloads: int): (m: Metrics)
    ensures m == FromReading(SystemReading(0.0, 0, 0, 0, 0, 0), now, activeDownloads)
  {
    Metrics(now, 0.0, 0.0, 0, 0, 0, 0, activeDownloads, 0.0)
  }

  /** `history[-1000:]` when the history is longer than 1000, else the history itself. */
  function Bounded<T>(history: seq<T>): (r: seq<T>)
    ensures |r| == Min(|history|, MaxHistory)
    ensures r == history[|history| - |r|..]
  {
    if |history| > MaxHistory then history[|history| - MaxHistory..] else history
  }

  /** The history after one capture of `m`. */
  function Appended<T>(history: seq<T>, m: T): seq<T> {
    Bounded(history + [m])
  }

  /**
   * One capture: the length becomes min(old length + 1, 1000), the new
   * record is last, and the others are the most recent old ones, in order.
   */
  lemma AppendedKeepsNewest<T>(history: seq<T>, m: T)
    requires |history| <= MaxHistory
    ensures var h := Appended(history, m);
      && |h| == Min(|history| + 1, MaxHistory)
      && h[|h| - 1] == m
      && h[..|h| - 1] == history[|history| - (|h| - 1)..]
  {
    var h := Appended(history, m);
    assert h == (history + [m])[|history| + 1 - |h|..];
    assert h[..|h| - 1] == (history + [m])[|history| + 1 - |h|..|history|];
  }

  /** The history after capturing each of `ms` in turn, starting from `history`. */
  function CaptureAll<T>(history: seq<T>, ms: seq<T>): seq<T>
    decreases |ms|
  {
    if ms == [] then history else CaptureAll(Appended(history, ms[0]), ms[1..])
  }

  /** Bounding early changes nothing: the bound keeps a suffix, and only suffixes survive later bounding. */
  lemma {:induction false} BoundedAbsorbs<T>(a: seq<T>, b: seq<T>)
    ensures Bounded(Bounded(a) + b) == Bounded(a + b)
  {
    var ba := Bounded(a);
    if |a| > MaxHistory {
      var x := ba + b;
      var y := a + b;
      assert x == y[|a| - MaxHistory..];
      assert x[|x| - Min(|x|, MaxHistory)..] == y[|y| - MaxHistory..];
    }
  }

  /**
   * Any run of captures from a valid history keeps exactly the last
   * min(total, 1000) records of everything seen, in order; after 1005
   * captures from an empty history there are 1000 records.
   */
  lemma {:induction false} CaptureAllKeepsMostRecent<T>(history: seq<T>, ms: seq<T>)
    requires |history| <= MaxHistory
    ensures CaptureAll(history, ms) == Bounded(history + ms)
    decreases |ms|
  {
    if ms == [] {
      assert history + ms == history;
    } else {
      var h1 := Appended(history, ms[0]);
      CaptureAllKeepsMostRecent(h1, ms[1..]);
      BoundedAbsorbs(history + [ms[0]], ms[1..]);
      assert history + [ms[0]] + ms[1..] == history + ms;
    }
  }

  class PerformanceMonitor {
    var metricsHistory: seq<Metrics>
    const startTime: int

    ghost predicate Valid()
      reads this
    {
      |metricsHistory| <= MaxHistory
    }

    constructor (now: int)
      ensures Valid()
      ensures metricsHistory == [] && startTime == now
    {
      metricsHistory := [];
      startTime := now;
    }

    /**
     * `capture_metrics`: on a reading, appends its record and keeps the
     * last 1000; when sampling raised, returns the zero record and leaves
     * the history alone.
     */
    method CaptureMetrics(reading: Option<SystemReading>, now: int, activeDownloads: int) returns (m: Metrics)
      requires Valid()
      modifies this
      ensures Valid()
      ensures m.activeDownloads == activeDownloads && m.timestamp == now
      ensures reading.Some? ==> m == FromReading(reading.value, now, activeDownloads)
      ensures reading.Some? ==> metricsHistory == Appended(old(metricsHistory), m)
      ensures reading.None? ==> m == ZeroMetrics(now, activeDownloads)
      ensures reading.None? ==> metricsHistory == old(metricsHistory)
    {
      if reading.None? {
        return ZeroMetrics(now, activeDownloads);
      }
      m := FromReading(reading.value, now, activeDownloads);
      metricsHistory := metricsHistory + [m];
      if |metricsHistory| > MaxHistory {
        metricsHistory := metricsHistory[|metricsHistory| - MaxHistory..];
      }
    }
  }
}
