/** The bounded in-memory error log (src/web/src/utils/logger.ts). */
module Logger {

  /** The most entries the log keeps. */
  const MAX_LOGGED: nat := 100

  /** What was thrown: an `Error` with its message, or any other value
      together with its `String(...)` rendering. */
  datatype Thrown = ErrorObject(message: string) | OtherValue(rendered: string)

  datatype LoggedError = LoggedError(message: string, timestamp: int, source: string)

  function MessageOf(error: Thrown): (m: string)
    ensures error.ErrorObject? ==> m == error.message
    ensures error.OtherValue? ==> m == error.rendered
  {
    match error
    case ErrorObject(msg) => msg
    case OtherValue(text) => text
  }

  /** The log after appending `e`: `log + [e]` less its oldest entry when
      that makes it longer than the bound. */
  function Appended(log: seq<LoggedError>, e: LoggedError): (r: seq<LoggedError>)
    ensures |r| > 0 && r[|r| - 1] == e
    ensures |r| <= |log| + 1 && r == (log + [e])[|log| + 1 - |r|..]
    ensures |log| < MAX_LOGGED ==> r == log + [e]
    ensures |log| <= MAX_LOGGED ==> |r| <= MAX_LOGGED
    ensures |log| >= MAX_LOGGED ==> |r| == |log|
  {
    var l := log + [e];
    if |l| > MAX_LOGGED then l[1..] else l
  }

  /** Appending to a full log drops exactly its oldest entry and keeps the
      others in order. */
  lemma AppendedToFull(log: seq<LoggedError>, e: LoggedError)
    requires |log| == MAX_LOGGED
    ensures Appended(log, e) == log[1..] + [e]
  {
  }

  /** The last `MAX_LOGGED` entries of `s`, or all of them. */
  function Window(s: seq<LoggedError>): (r: seq<LoggedError>)
    ensures |r| == if |s| < MAX_LOGGED then |s| else MAX_LOGGED
    ensures r == s[|s| - |r|..]
  {
    if |s| > MAX_LOGGED then s[|s| - MAX_LOGGED..] else s
  }

  /** The log after appending each of `es` in turn. */
  function AppendAll(log: seq<LoggedError>, es: seq<LoggedError>): seq<LoggedError>
    decreases |es|
  {
    if es == [] then log else AppendAll(Appended(log, es[0]), es[1..])
  }

  lemma WindowOfSuffix(s: seq<LoggedError>, k: nat)
    requires k <= |s| && |s| - k >= |Window(s)|
    ensures Window(s[k..]) == Window(s)
  {
  }

  /** However many errors are logged, a log that starts within the bound
      holds exactly the most recent hundred entries, oldest first. */
  lemma {:induction false} AppendAllIsWindow(log: seq<LoggedError>, es: seq<LoggedError>)
    requires |log| <= MAX_LOGGED
    ensures AppendAll(log, es) == Window(log + es)
    decreases |es|
  {
    if es == [] {
      assert log + es == log;
    } else {
      var next := Appended(log, es[0]);
      AppendAllIsWindow(next, es[1..]);
      var k := |log| + 1 - |next|;
      SuffixThenRest(log, es, next, k);
      WindowOfSuffix(log + es, k);
    }
  }

  lemma SuffixThenRest(log: seq<LoggedError>, es: seq<LoggedError>, next: seq<LoggedError>, k: nat)
    requires es != [] && k <= |log| + 1 && next == (log + [es[0]])[k..]
    ensures k <= |log + es| && next + es[1..] == (log + es)[k..]
  {
    assert log + es == (log + [es[0]]) + es[1..];
  }

  /** The module-level `errorLog` array. */
  class ErrorLog {
    var entries: seq<LoggedError>

    constructor()
      ensures entries == []
    {
      entries := [];
    }

    /** `logError(source, error)` at time `now` (the clock is a parameter). */
    method LogError(source: string, error: Thrown, now: int)
      modifies this
      ensures entries == Appended(old(entries), LoggedError(MessageOf(error), now, source))
      ensures old(|entries|) <= MAX_LOGGED ==> |entries| <= MAX_LOGGED
    {
      entries := entries + [LoggedError(MessageOf(error), now, source)];
      if |entries| > MAX_LOGGED {
        entries := entries[1..];
      }
    }
  }
}
