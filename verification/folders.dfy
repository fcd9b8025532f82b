/**
 * Shared folders (internal/helpers/sharing_helpers.go): a shared folder is
 * named "<yyyyMMddHHmmss>_<Duration.String()>_<id>" when it is created, and
 * the periodic sweep reads the first two fields back to decide whether the
 * folder has expired. The clock, the UUID and the directory listing are
 * inputs; instants are nanoseconds since the Unix epoch.
 */
module SharedFolders {
  import opened Wrappers
  import opened Text
  import opened Clock
  import opened Durations

  /**
   * GenerateFolderName, given the UTC clock reading it formats and the id
   * that fills the third field. The fields split apart again at '_': the
   * timestamp and the duration text hold none, so the id's own '_'s only
   * add fields after the second.
   */
  function GenerateFolderName(clock: DateTime, d: int, id: string): (name: string)
    requires Valid(clock) && InRange(d)
    ensures 0 <= clock.year < 10000 ==>
      Split(name, '_') == [FormatTimestamp(clock), DurationString(d)] + Split(id, '_')
  {
    var ts, ds := FormatTimestamp(clock), DurationString(d);
    if 0 <= clock.year < 10000 then
      FieldsSplit(ts, ds, id);
      ts + "_" + ds + "_" + id
    else ts + "_" + ds + "_" + id
  }

  /** Two '_'-free fields and a tail joined by '_' split back into the fields and the tail's parts. */
  lemma FieldsSplit(a: string, b: string, tail: string)
    requires '_' !in a && '_' !in b
    ensures Split(a + "_" + b + "_" + tail, '_') == [a, b] + Split(tail, '_')
  {
    Regroup(a, "_", b, "_", tail);
    SplitCons(a, '_', b + "_" + tail);
    SplitCons(b, '_', tail);
  }

  lemma Regroup<T>(a: seq<T>, b: seq<T>, c: seq<T>, d: seq<T>, e: seq<T>)
    ensures a + b + c + d + e == a + b + (c + d + e)
  {
  }

  /** A directory entry as os.ReadDir reports it. */
  datatype Entry = Entry(name: string, isDir: bool)

  /** What one iteration of the sweep does with an entry. */
  datatype Decision =
    | NotDirectory
    | BadFormat
    | BadTimestamp
    | BadDuration(err: DurationError)
    | Active(expiry: int)
    | Expired(expiry: int)

  /**
   * The sweep's verdict on one entry at instant now: directories only, at
   * least three '_'-separated fields, a timestamp, then a duration; the
   * folder is removed once now is strictly after creation plus duration.
   */
  function Decide(e: Entry, now: int, scale: FracScale): (r: Decision)
    ensures !e.isDir ==> r == NotDirectory
    ensures e.isDir && |Split(e.name, '_')| < 3 ==> r == BadFormat
    ensures r.Expired? ==> now > r.expiry
    ensures r.Active? ==> now <= r.expiry
  {
    if !e.isDir then NotDirectory
    else
      var parts := Split(e.name, '_');
      if |parts| < 3 then BadFormat
      else DecideFields(ParseTimestamp(parts[0]), ParseDuration(parts[1], scale), now)
  }

  /** The verdict on a directory with enough fields, from what its first two fields parse to. */
  function DecideFields(stamp: Option<(DateTime, nat)>, duration: Result<int, DurationError>, now: int): (r: Decision)
    requires stamp.Some? ==> Valid(stamp.value.0)
    ensures r.Expired? ==> now > r.expiry
    ensures r.Active? ==> now <= r.expiry
  {
    match stamp
    case None => BadTimestamp
    case Some((t, nanos)) =>
      match duration
      case Failure(err) => BadDuration(err)
      case Success(d) =>
        var expiry := UnixNanos(t, nanos) + d;
        if now > expiry then Expired(expiry) else Active(expiry)
  }

  /** The reference sweep: the names of the entries to remove, in listing order. */
  function ExpiredNames(entries: seq<Entry>, now: int, scale: FracScale): (names: seq<string>)
    ensures |names| <= |entries|
  {
    Select(entries, e => Decide(e, now, scale).Expired?)
  }

  /** The names of the entries that keep holds for, in order. */
  function Select(entries: seq<Entry>, keep: Entry -> bool): (names: seq<string>)
    ensures |names| <= |entries|
  {
    if entries == [] then []
    else
      var last := entries[|entries| - 1];
      Select(entries[..|entries| - 1], keep) + (if keep(last) then [last.name] else [])
  }

  /** Listing one more entry appends its name exactly when it has expired. */
  lemma ExpiredNamesSnoc(entries: seq<Entry>, i: nat, now: int, scale: FracScale)
    requires i < |entries|
    ensures ExpiredNames(entries[..i + 1], now, scale)
         == ExpiredNames(entries[..i], now, scale) + (if Decide(entries[i], now, scale).Expired? then [entries[i].name] else [])
  {
    assert entries[..i + 1][..i] == entries[..i];
  }

  /** The names whose removal fails, in order: they are only reported. */
  function Failing(names: seq<string>, removeFails: string -> bool): (failed: seq<string>)
    ensures |failed| <= |names|
    ensures forall n :: n in failed ==> n in names && removeFails(n)
  {
    if names == [] then []
    else
      Failing(names[..|names| - 1], removeFails)
        + (if removeFails(names[|names| - 1]) then [names[|names| - 1]] else [])
  }

  /** The folders RemoveAll was called on, and those whose removal failed. */
  datatype SweepReport = SweepReport(removed: seq<string>, failed: seq<string>)

  /**
   * CleanupExpiredFolders over a listing of the root (or the error reading
   * it), at instant now. removeFails says which removals fail; a failure is
   * printed and the sweep goes on. Only a failed listing is an error.
   */
  method CleanupExpiredFolders(listing: Result<seq<Entry>, string>, now: int, scale: FracScale,
                               removeFails: string -> bool)
    returns (r: Result<SweepReport, string>)
    ensures r.Failure? <==> listing.Failure?
    ensures r.Failure? ==> r.error == listing.error
    ensures r.Success? ==> r.value.removed == ExpiredNames(listing.value, now, scale)
    ensures r.Success? ==> r.value.failed == Failing(r.value.removed, removeFails)
  {
    if listing.Failure? {
      return Failure(listing.error);
    }
    var entries := listing.value;
    var removed: seq<string> := [];
    var failed: seq<string> := [];
    var i := 0;
    while i < |entries|
      invariant 0 <= i <= |entries|
      invariant removed == ExpiredNames(entries[..i], now, scale)
      invariant failed == Failing(removed, removeFails)
    {
      var e := entries[i];
      ExpiredNamesSnoc(entries, i, now, scale);
      if Decide(e, now, scale).Expired? {
        assert (removed + [e.name])[..|removed|] == removed;
        removed := removed + [e.name];
        if removeFails(e.name) {
          failed := failed + [e.name];
        }
      }
      i := i + 1;
    }
    assert entries[..i] == entries;
    return Success(SweepReport(removed, failed));
  }

  // ---------------------------------------------------------------------
  // Properties
  // ---------------------------------------------------------------------

  /**
   * A name generated for a whole-second duration reads back: the first
   * field parses as the creation second (no fraction), the second as the
   * duration, whatever the id.
   */
  lemma GeneratedNameParses(clock: DateTime, d: int, id: string, scale: FracScale)
    requires Valid(clock) && 0 <= clock.year < 10000
    requires InRange(d) && d % Second == 0
    ensures var parts := Split(GenerateFolderName(clock, d, id), '_');
      && |parts| >= 3
      && ParseTimestamp(parts[0]) == Some((clock, 0))
      && ParseDuration(parts[1], scale) == Success(d)
  {
    ParseFormatTimestamp(clock);
    ParseDurationString(d, scale);
  }

  /**
   * The sweep decides a generated folder on the clock reading and the
   * duration it was generated with, whatever the id.
   */
  lemma DecideGenerated(clock: DateTime, d: int, id: string, now: int, scale: FracScale)
    requires Valid(clock) && 0 <= clock.year < 10000
    requires InRange(d) && d % Second == 0
    ensures Decide(Entry(GenerateFolderName(clock, d, id), true), now, scale)
         == DecideFields(Some((clock, 0)), Success(d), now)
  {
    var name := GenerateFolderName(clock, d, id);
    var parts := Split(name, '_');
    assert parts[0] == FormatTimestamp(clock) && parts[1] == DurationString(d);
    FieldsDecide(name, clock, d, now, scale);
  }

  /**
   * Fields that parse give an expiry of the creation instant plus the
   * duration, and the folder is removed exactly when now is strictly after it.
   */
  lemma DecideFieldsOf(t: DateTime, nanos: nat, d: int, now: int)
    requires Valid(t)
    ensures var expiry := UnixNanos(t, nanos) + d;
      DecideFields(Some((t, nanos)), Success(d), now) == if now > expiry then Expired(expiry) else Active(expiry)
  {
  }

  /**
   * Any directory whose first two fields are a formatted second and a
   * whole-second duration is decided on that second and duration.
   */
  lemma FieldsDecide(name: string, clock: DateTime, d: int, now: int, scale: FracScale)
    requires Valid(clock) && 0 <= clock.year < 10000
    requires InRange(d) && d % Second == 0
    requires |Split(name, '_')| >= 3
    requires Split(name, '_')[0] == FormatTimestamp(clock) && Split(name, '_')[1] == DurationString(d)
    ensures Decide(Entry(name, true), now, scale) == DecideFields(Some((clock, 0)), Success(d), now)
  {
    ParseFormatTimestamp(clock);
    ParseDurationString(d, scale);
    DecideParsed(name, now, scale, clock, 0, d);
  }

  /** A directory whose first two fields parse is decided on their values alone. */
  lemma DecideParsed(name: string, now: int, scale: FracScale, t: DateTime, nanos: nat, d: int)
    requires |Split(name, '_')| >= 3 && Valid(t)
    requires ParseTimestamp(Split(name, '_')[0]) == Some((t, nanos))
    requires ParseDuration(Split(name, '_')[1], scale) == Success(d)
    ensures Decide(Entry(name, true), now, scale) == DecideFields(Some((t, nanos)), Success(d), now)
  {
  }

  /** A folder shared for zero time is removed by any sweep after its creation second. */
  lemma ZeroDurationRemoved(clock: DateTime, id: string, now: int, scale: FracScale)
    requires Valid(clock) && 0 <= clock.year < 10000
    requires now > UnixNanos(clock, 0)
    ensures Decide(Entry(GenerateFolderName(clock, 0, id), true), now, scale).Expired?
  {
    DecideGenerated(clock, 0, id, now, scale);
    DecideFieldsOf(clock, 0, 0, now);
  }

  /** Only the first two fields decide: names that agree on them are treated alike. */
  lemma DecideFirstTwoFields(n1: string, n2: string, now: int, scale: FracScale)
    requires |Split(n1, '_')| >= 3 && |Split(n2, '_')| >= 3
    requires Split(n1, '_')[..2] == Split(n2, '_')[..2]
    ensures Decide(Entry(n1, true), now, scale) == Decide(Entry(n2, true), now, scale)
  {
    assert Split(n1, '_')[0] == Split(n1, '_')[..2][0];
    assert Split(n1, '_')[1] == Split(n1, '_')[..2][1];
    assert Split(n2, '_')[0] == Split(n2, '_')[..2][0];
    assert Split(n2, '_')[1] == Split(n2, '_')[..2][1];
  }

  /** An expired folder stays expired at every later sweep. */
  lemma ExpiredStaysExpired(e: Entry, now: int, later: int, scale: FracScale)
    requires Decide(e, now, scale).Expired? && now <= later
    ensures Decide(e, later, scale) == Decide(e, now, scale)
  {
  }

  /** The reference sweep removes a listed entry exactly when its verdict is Expired. */
  lemma ExpiredNamesMembers(entries: seq<Entry>, now: int, scale: FracScale, name: string)
    ensures name in ExpiredNames(entries, now, scale)
      <==> exists i :: 0 <= i < |entries| && entries[i].name == name && Decide(entries[i], now, scale).Expired?
  {
    SelectMembers(entries, e => Decide(e, now, scale).Expired?, name);
  }

  /** A name is selected exactly when some entry with that name is kept. */
  lemma {:induction false} SelectMembers(entries: seq<Entry>, keep: Entry -> bool, name: string)
    ensures name in Select(entries, keep) <==> exists i :: 0 <= i < |entries| && entries[i].name == name && keep(entries[i])
  {
    if entries != [] {
      var init := entries[..|entries| - 1];
      SelectMembers(init, keep, name);
      if name in Select(entries, keep) && name !in Select(init, keep) {
        var i := |entries| - 1;
        assert entries[i].name == name && keep(entries[i]);
      }
      if exists i :: 0 <= i < |entries| && entries[i].name == name && keep(entries[i]) {
        var i :| 0 <= i < |entries| && entries[i].name == name && keep(entries[i]);
        if i < |entries| - 1 {
          assert init[i] == entries[i];
        }
      }
    }
  }

  /** Entries that are not directories are never removed. */
  lemma FilesNeverRemoved(entries: seq<Entry>, now: int, scale: FracScale, name: string)
    requires forall i :: 0 <= i < |entries| && entries[i].name == name ==> !entries[i].isDir
    ensures name !in ExpiredNames(entries, now, scale)
  {
    ExpiredNamesMembers(entries, now, scale, name);
  }
}
