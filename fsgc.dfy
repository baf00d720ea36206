/**
 * A model of package fsgc: a collector that removes expired gorilla/sessions
 * files from a directory. Durations and instants are Go's integer
 * nanoseconds (time.Duration), taken as unbounded integers.
 */
module Fsgc {

  datatype Option<T> = None | Some(value: T)

  // Units of time.Duration, in nanoseconds.
  const Nanosecond: int := 1
  const Millisecond: int := 1_000_000 * Nanosecond
  const Second: int := 1000 * Millisecond
  const Minute: int := 60 * Second
  const Hour: int := 60 * Minute

  /** Sessions older than this are removed unless MaxAge says otherwise. */
  const DefaultMaxAge: int := 7 * 24 * Hour
  /** Period of the automatic collection unless Interval says otherwise. */
  const DefaultInterval: int := 1 * Hour

  /** Name prefix of the files the session store writes. */
  const SessionPrefix: string := "session_"

  /** strings.HasPrefix. */
  predicate HasPrefix(s: string, prefix: string) {
    |s| >= |prefix| && s[..|prefix|] == prefix
  }

  /** HasPrefix agrees with the reference definition "s is prefix followed by something". */
  lemma HasPrefixIffConcat(s: string, prefix: string)
    ensures HasPrefix(s, prefix) <==> exists rest :: s == prefix + rest
  {
    if HasPrefix(s, prefix) {
      assert s == prefix + s[|prefix|..];
    }
    if exists rest :: s == prefix + rest {
      var rest :| s == prefix + rest;
      assert s[..|prefix|] == prefix;
    }
  }

  // ---------------------------------------------------------------------
  // Directory contents

  /** What the directory holds under one name. */
  datatype Entry = Entry(isDir: bool, modTime: int)

  /** One element of the slice that f.Readdir returns: a name and what it held when listed. */
  datatype FileInfo = FileInfo(name: string, entry: Entry)

  /** Why the directory could not be swept. */
  datatype DirError = OpenError | ReaddirError

  /** What os.Open followed by f.Readdir(0) reported for the collector's directory. */
  datatype Listing = Failed(error: DirError) | Listed(infos: seq<FileInfo>)

  /** `infos` lists exactly the entries of `entries`, each name once, in some order. */
  ghost predicate Lists(infos: seq<FileInfo>, entries: map<string, Entry>) {
    && (forall i :: 0 <= i < |infos| ==>
          infos[i].name in entries && infos[i].entry == entries[infos[i].name])
    && (forall name :: name in entries ==> exists i :: 0 <= i < |infos| && infos[i].name == name)
    && (forall i, j :: 0 <= i < j < |infos| ==> infos[i].name != infos[j].name)
  }

  // ---------------------------------------------------------------------
  // The sweep rule

  /** An entry that is not a directory, named like a session: the entries the sweep looks at. */
  predicate IsSessionFile(fi: FileInfo) {
    !fi.entry.isDir && HasPrefix(fi.name, SessionPrefix)
  }

  /** The age test: strictly older than maxAge at the instant now. */
  predicate Expired(modTime: int, now: int, maxAge: int) {
    now - modTime > maxAge
  }

  /** The sweep calls os.Remove on exactly these entries. */
  predicate Eligible(fi: FileInfo, now: int, maxAge: int) {
    IsSessionFile(fi) && Expired(fi.entry.modTime, now, maxAge)
  }

  /** An eligible entry whose os.Remove succeeds. */
  predicate Removes(fi: FileInfo, now: int, maxAge: int, removeFails: set<string>) {
    Eligible(fi, now, maxAge) && fi.name !in removeFails
  }

  /** Names the sweep over `infos` removes from the directory. */
  function Doomed(infos: seq<FileInfo>, now: int, maxAge: int, removeFails: set<string>): set<string>
  {
    if infos == [] then {}
    else
      var last := infos[|infos| - 1];
      Doomed(infos[..|infos| - 1], now, maxAge, removeFails)
        + (if Removes(last, now, maxAge, removeFails) then {last.name} else {})
  }

  /** The directory contents a sweep should leave: every entry except the eligible ones whose removal succeeds. */
  function Swept(entries: map<string, Entry>, now: int, maxAge: int, removeFails: set<string>): map<string, Entry>
  {
    map name | name in entries && !Removes(FileInfo(name, entries[name]), now, maxAge, removeFails) :: entries[name]
  }

  /** A name is doomed exactly when some listed element with that name is removed. */
  lemma {:induction false} DoomedMembers(infos: seq<FileInfo>, now: int, maxAge: int, removeFails: set<string>, name: string)
    ensures name in Doomed(infos, now, maxAge, removeFails) <==>
              exists i :: 0 <= i < |infos| && infos[i].name == name && Removes(infos[i], now, maxAge, removeFails)
  {
    if infos != [] {
      var init := infos[..|infos| - 1];
      DoomedMembers(init, now, maxAge, removeFails, name);
      if exists i :: 0 <= i < |init| && init[i].name == name && Removes(init[i], now, maxAge, removeFails) {
        var i :| 0 <= i < |init| && init[i].name == name && Removes(init[i], now, maxAge, removeFails);
        assert infos[i] == init[i];
      }
      if exists i :: 0 <= i < |infos| && infos[i].name == name && Removes(infos[i], now, maxAge, removeFails) {
        var i :| 0 <= i < |infos| && infos[i].name == name && Removes(infos[i], now, maxAge, removeFails);
        if i < |init| {
          assert init[i] == infos[i];
        }
      }
    }
  }

  /** Sweeping a complete and current listing leaves exactly Swept. */
  lemma SweepOfListing(infos: seq<FileInfo>, entries: map<string, Entry>, now: int, maxAge: int, removeFails: set<string>)
    requires Lists(infos, entries)
    ensures entries - Doomed(infos, now, maxAge, removeFails) == Swept(entries, now, maxAge, removeFails)
  {
    var left := entries - Doomed(infos, now, maxAge, removeFails);
    var right := Swept(entries, now, maxAge, removeFails);
    forall name | name in entries
      ensures name in left <==> name in right
    {
      DoomedMembers(infos, now, maxAge, removeFails, name);
      var i :| 0 <= i < |infos| && infos[i].name == name;
      assert infos[i] == FileInfo(name, entries[name]);
    }
    assert left == right;
  }

  /** Entries that are directories or are not named like sessions survive unchanged. */
  lemma NonSessionSurvives(entries: map<string, Entry>, now: int, maxAge: int, removeFails: set<string>, name: string)
    requires name in entries && !IsSessionFile(FileInfo(name, entries[name]))
    ensures name in Swept(entries, now, maxAge, removeFails)
    ensures Swept(entries, now, maxAge, removeFails)[name] == entries[name]
  {
  }

  /**
   * An entry no older than maxAge survives unchanged; since the comparison is
   * strict, this includes an entry exactly maxAge old.
   */
  lemma UnexpiredSurvives(entries: map<string, Entry>, now: int, maxAge: int, removeFails: set<string>, name: string)
    requires name in entries && now - entries[name].modTime <= maxAge
    ensures name in Swept(entries, now, maxAge, removeFails)
    ensures Swept(entries, now, maxAge, removeFails)[name] == entries[name]
  {
  }

  /** An expired session file is gone afterwards unless its removal failed. */
  lemma ExpiredSessionGone(entries: map<string, Entry>, now: int, maxAge: int, removeFails: set<string>, name: string)
    requires name in entries && IsSessionFile(FileInfo(name, entries[name]))
    requires now - entries[name].modTime > maxAge
    ensures name in Swept(entries, now, maxAge, removeFails) <==> name in removeFails
  {
  }

  /** The sweep only removes: whatever remains is unchanged. */
  lemma SweptOnlyRemoves(entries: map<string, Entry>, now: int, maxAge: int, removeFails: set<string>)
    ensures Swept(entries, now, maxAge, removeFails).Keys <= entries.Keys
    ensures forall name :: name in Swept(entries, now, maxAge, removeFails) ==>
              Swept(entries, now, maxAge, removeFails)[name] == entries[name]
  {
  }

  /** A second sweep with the same clock and the same failures removes nothing more. */
  lemma SweptIdempotent(entries: map<string, Entry>, now: int, maxAge: int, removeFails: set<string>)
    ensures Swept(Swept(entries, now, maxAge, removeFails), now, maxAge, removeFails)
         == Swept(entries, now, maxAge, removeFails)
  {
  }

  /** When no removal fails, no eligible entry remains. */
  lemma SweptLeavesNoEligible(entries: map<string, Entry>, now: int, maxAge: int)
    ensures forall name :: name in Swept(entries, now, maxAge, {}) ==>
              !Eligible(FileInfo(name, entries[name]), now, maxAge)
  {
  }

  /** A later clock or a smaller maxAge never keeps more entries. */
  lemma SweptMonotone(entries: map<string, Entry>, now: int, now': int, maxAge: int, maxAge': int, removeFails: set<string>)
    requires now <= now' && maxAge' <= maxAge
    ensures Swept(entries, now', maxAge', removeFails).Keys <= Swept(entries, now, maxAge, removeFails).Keys
  {
  }

  // ---------------------------------------------------------------------
  // The collector's state and its transitions

  /**
   * The observable state of a GC as a value, so that the lifecycle lemmas
   * below can speak of sequences of calls; each method of GC is specified by
   * one of these transitions. ticker holds the period fixed at Start while running.
   */
  datatype GCState = GCState(dir: string, maxAge: int, interval: int, ticker: Option<int>) {
    predicate Running() { ticker.Some? }
  }

  function NewState(dir: string): GCState {
    GCState(dir, DefaultMaxAge, DefaultInterval, None)
  }

  function WithMaxAge(s: GCState, dur: int): GCState {
    s.(maxAge := dur)
  }

  function WithInterval(s: GCState, dur: int): GCState {
    s.(interval := dur)
  }

  function Started(s: GCState): GCState {
    if s.Running() then s else s.(ticker := Some(s.interval))
  }

  function Stopped(s: GCState): GCState {
    s.(ticker := None)
  }

  /** Starting twice is the same as starting once. */
  lemma StartIdempotent(s: GCState)
    ensures Started(Started(s)) == Started(s)
    ensures Started(s).Running()
  {
  }

  /** Stopping twice is the same as stopping once; a stopped collector is not running. */
  lemma StopIdempotent(s: GCState)
    ensures Stopped(Stopped(s)) == Stopped(s)
    ensures !Stopped(s).Running()
  {
  }

  /** After Stop, Start runs again, with the interval current at that moment. */
  lemma RestartAfterStop(s: GCState)
    ensures Started(Stopped(s)).ticker == Some(s.interval)
    ensures Started(Stopped(s)).(ticker := s.ticker) == s
  {
  }

  /** Start then Stop leaves the collector as Stop alone would. */
  lemma StopUndoesStart(s: GCState)
    ensures Stopped(Started(s)) == Stopped(s)
  {
  }

  /** Changing the interval of a running collector does not reschedule it. */
  lemma IntervalAppliesAtNextStart(s: GCState, dur: int)
    requires s.Running()
    ensures Started(WithInterval(s, dur)).ticker == s.ticker
    ensures Started(Stopped(WithInterval(s, dur))).ticker == Some(dur)
  {
  }

  /** The two setters touch different fields, so their order does not matter. */
  lemma SettersCommute(s: GCState, age: int, period: int)
    ensures WithMaxAge(WithInterval(s, period), age) == WithInterval(WithMaxAge(s, age), period)
    ensures WithMaxAge(s, age).Running() == s.Running()
    ensures WithInterval(s, period).Running() == s.Running()
  {
  }

  // ---------------------------------------------------------------------
  // The collector

  class GC {
    const dir: string
    var maxAge: int
    var interval: int
    var ticker: Option<int>

    function State(): GCState
      reads this
    {
      GCState(dir, maxAge, interval, ticker)
    }

    /** Running exactly when State() is. */
    predicate Running()
      reads this
    {
      State().Running()
    }

    /** New: a stopped collector for dir with the default age and interval. */
    constructor New(dir: string)
      ensures this.dir == dir
      ensures maxAge == DefaultMaxAge && interval == DefaultInterval
      ensures ticker == None
      ensures State() == NewState(dir)
    {
      this.dir := dir;
      maxAge := DefaultMaxAge;
      interval := DefaultInterval;
      ticker := None;
    }

    /** Sets maxAge and returns the same collector. */
    method MaxAge(dur: int) returns (r: GC)
      modifies this
      ensures r == this
      ensures maxAge == dur
      ensures interval == old(interval) && ticker == old(ticker)
      ensures State() == WithMaxAge(old(State()), dur)
    {
      maxAge := dur;
      r := this;
    }

    /** Sets interval and returns the same collector. */
    method Interval(dur: int) returns (r: GC)
      modifies this
      ensures r == this
      ensures interval == dur
      ensures maxAge == old(maxAge) && ticker == old(ticker)
      ensures State() == WithInterval(old(State()), dur)
    {
      interval := dur;
      r := this;
    }

    /**
     * Starts automatic collection with the current interval as period; does
     * nothing when already running. time.NewTicker refuses a non-positive period.
     */
    method Start() returns (r: GC)
      requires Running() || interval > 0
      modifies this
      ensures r == this
      ensures old(Running()) ==> ticker == old(ticker)
      ensures !old(Running()) ==> ticker == Some(interval)
      ensures maxAge == old(maxAge) && interval == old(interval)
      ensures State() == Started(old(State()))
    {
      r := this;
      if ticker.Some? {
        return;
      }
      ticker := Some(interval);
    }

    /** Stops automatic collection; does nothing when not running. */
    method Stop()
      modifies this
      ensures ticker == None
      ensures maxAge == old(maxAge) && interval == old(interval)
      ensures State() == Stopped(old(State()))
    {
      if ticker.None? {
        return;
      }
      ticker := None;
    }

    /**
     * One sweep of the directory dir, whose contents are `entries`. `listing`
     * is what opening and reading dir reported, `now` the clock read once
     * after listing, and `removeFails` the names whose os.Remove fails.
     * Returns the error (None for nil) and the contents afterwards.
     */
    method Collect(listing: Listing, entries: map<string, Entry>, now: int, removeFails: set<string>)
      returns (err: Option<DirError>, after: map<string, Entry>)
      ensures listing.Failed? ==> err == Some(listing.error) && after == entries
      ensures listing.Listed? ==> err == None
      ensures listing.Listed? ==> after == entries - Doomed(listing.infos, now, maxAge, removeFails)
      ensures listing.Listed? && Lists(listing.infos, entries) ==>
                after == Swept(entries, now, maxAge, removeFails)
    {
      if listing.Failed? {
        return Some(listing.error), entries;
      }
      var infos := listing.infos;
      after := entries;
      var i := 0;
      while i < |infos|
        invariant 0 <= i <= |infos|
        invariant after == entries - Doomed(infos[..i], now, maxAge, removeFails)
      {
        var fi := infos[i];
        assert infos[..i + 1][..i] == infos[..i];
        if fi.entry.isDir || !HasPrefix(fi.name, SessionPrefix) {
          i := i + 1;
          continue;
        }
        if now - fi.entry.modTime > maxAge {
          if fi.name !in removeFails {
            after := after - {fi.name};
          }
        }
        i := i + 1;
      }
      assert infos[..i] == infos;
      if Lists(infos, entries) {
        SweepOfListing(infos, entries, now, maxAge, removeFails);
      }
      return None, after;
    }
  }
}
