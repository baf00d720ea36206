/** The scenario of TestGC, with the clock and the file system as values. */
module FsgcTest {
  import opened Fsgc

  /**
   * session_1 was modified DefaultMaxAge + 10 minutes before t0, session_2
   * at t0. The collector runs with a 100ms interval; its first tick sweeps
   * one interval later. session_1 is removed and session_2 kept.
   */
  method TestGC(t0: int) returns (err: Option<DirError>, left: set<string>)
    ensures err == None
    ensures left == {"session_2"}
  {
    var e1 := Entry(false, t0 - (DefaultMaxAge + 10 * Minute));
    var e2 := Entry(false, t0);
    var entries := map["session_1" := e1, "session_2" := e2];
    var gc := new GC.New("fsgc");
    gc := gc.Interval(100 * Millisecond);
    gc := gc.Start();
    var now := t0 + gc.interval;
    var infos := [FileInfo("session_1", e1), FileInfo("session_2", e2)];
    assert infos[0].name == "session_1" && infos[1].name == "session_2";
    assert Lists(infos, entries);
    var after;
    err, after := gc.Collect(Listed(infos), entries, now, {});
    gc.Stop();
    assert HasPrefix("session_1", SessionPrefix);
    assert "session_1" !in after;
    assert "session_2" in after;
    left := after.Keys;
  }
}
