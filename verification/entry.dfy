/** One launch entry, "COMMAND[,wait=SECONDS]": the split on the wait marker, the wait
    value and the tokenized command with its fallback. */
module Entry {
  import opened Wrappers
  import opened Decimal
  import opened Tokenizer

  const Marker: string := ",wait="

  predicate MarkerAt(s: string, i: nat) {
    i + |Marker| <= |s| && s[i..i + |Marker|] == Marker
  }

  /** `",wait=" in s` */
  predicate HasMarker(s: string) {
    exists i: nat :: i < |s| && MarkerAt(s, i)
  }

  /** The first occurrence of the marker at or after `from`. */
  function FindMarker(s: string, from: nat): (r: Option<nat>)
    requires from <= |s|
    ensures r.Some? ==> from <= r.value && MarkerAt(s, r.value)
    ensures r.Some? ==> forall j: nat :: from <= j < r.value ==> !MarkerAt(s, j)
    ensures r.None? ==> forall j: nat :: from <= j ==> !MarkerAt(s, j)
    decreases |s| - from
  {
    if from + |Marker| > |s| then None
    else if MarkerAt(s, from) then Some(from)
    else FindMarker(s, from + 1)
  }

  /** `s.split(",wait=")`: the pieces between occurrences found left to right. */
  function Split(s: string): (pieces: seq<string>)
    ensures |pieces| >= 1
    decreases |s|
  {
    match FindMarker(s, 0)
    case None => [s]
    case Some(i) => [s[..i]] + Split(s[i + |Marker|..])
  }

  /** `",wait=".join(pieces)` */
  function Join(pieces: seq<string>): string
    requires |pieces| >= 1
  {
    if |pieces| == 1 then pieces[0] else pieces[0] + Marker + Join(pieces[1..])
  }

  predicate MarkerFree(pieces: seq<string>) {
    forall k :: 0 <= k < |pieces| ==> !HasMarker(pieces[k])
  }

  /** Splitting loses nothing, and no piece holds the marker. */
  lemma {:induction false} JoinSplit(s: string)
    ensures Join(Split(s)) == s
    ensures MarkerFree(Split(s))
    decreases |s|
  {
    match FindMarker(s, 0)
    case None =>
    case Some(i) =>
      var rest := s[i + |Marker|..];
      JoinSplit(rest);
      AroundMarker(s, i);
      BeforeFirstMarker(s, i);
      var pieces := Split(s);
      assert pieces == [s[..i]] + Split(rest);
      assert pieces[1..] == Split(rest);
  }

  /** An occurrence cuts the text into what precedes it, the marker and what follows. */
  lemma AroundMarker(s: string, i: nat)
    requires MarkerAt(s, i)
    ensures s == s[..i] + Marker + s[i + |Marker|..]
  {
    assert s == s[..i] + s[i..i + |Marker|] + s[i + |Marker|..];
  }

  /** The text before the first occurrence holds no occurrence. */
  lemma BeforeFirstMarker(s: string, i: nat)
    requires FindMarker(s, 0) == Some(i)
    ensures !HasMarker(s[..i])
  {
    forall j: nat | j < i && MarkerAt(s[..i], j) ensures false {
      assert s[..i][j..j + |Marker|] == s[j..j + |Marker|];
      assert MarkerAt(s, j);
    }
  }

  /** The marker has no border: no proper suffix of it is also a prefix, so an occurrence
      cannot overlap the one at `at`. */
  lemma NoOverlap(s: string, at: nat, j: nat)
    requires MarkerAt(s, at) && MarkerAt(s, j)
    ensures j == at || j + |Marker| <= at || at + |Marker| <= j
  {
    if at < j < at + |Marker| {
      MarkerChar(s, at, j - at);
      MarkerChar(s, j, 0);
      assert false;
    } else if j < at < j + |Marker| {
      MarkerChar(s, j, at - j);
      MarkerChar(s, at, 0);
      assert false;
    }
  }

  /** Inside an occurrence the text spells the marker; only its first character is ','. */
  lemma MarkerChar(s: string, at: nat, k: nat)
    requires MarkerAt(s, at) && k < |Marker|
    ensures s[at + k] == Marker[k]
    ensures s[at + k] == ',' <==> k == 0
  {
    assert s[at + k] == s[at..at + |Marker|][k];
  }

  /** The first occurrence is found. */
  lemma FindFirst(s: string, at: nat)
    requires MarkerAt(s, at)
    requires forall j: nat :: j < at ==> !MarkerAt(s, j)
    ensures FindMarker(s, 0) == Some(at)
  {
  }

  /** Joining marker-free pieces and splitting again gives the pieces back. */
  lemma {:induction false} SplitJoin(pieces: seq<string>)
    requires |pieces| >= 1 && MarkerFree(pieces)
    ensures Split(Join(pieces)) == pieces
    decreases |pieces|
  {
    var s := Join(pieces);
    if |pieces| == 1 {
      SplitSingle(s);
    } else {
      var p, rest := pieces[0], Join(pieces[1..]);
      assert s == p + Marker + rest;
      var at := |p|;
      assert MarkerAt(s, at) by {
        assert s[at..at + |Marker|] == Marker;
      }
      forall j: nat | j < at && MarkerAt(s, j) ensures false {
        NoOverlap(s, at, j);
        assert s[j..j + |Marker|] == p[j..j + |Marker|];
        assert j < |p| && MarkerAt(p, j);
      }
      FindFirst(s, at);
      assert s[..at] == p;
      assert s[at + |Marker|..] == rest;
      assert Split(s) == [p] + Split(rest);
      SplitJoin(pieces[1..]);
      assert pieces == [p] + pieces[1..];
    }
  }

  /** A single piece exactly when the marker does not occur. */
  lemma SplitSingle(s: string)
    ensures |Split(s)| == 1 <==> !HasMarker(s)
  {
    if FindMarker(s, 0).Some? {
      assert MarkerAt(s, FindMarker(s, 0).value);
    }
  }

  /** The parsed form of an entry: what is spawned and how long to wait after it. */
  datatype LaunchEntry = LaunchEntry(exe: string, args: seq<string>, wait: real)

  /** The unpacking `cmd_part, wait_val = entry.split(",wait=")` fails with ValueError
      ("too many values to unpack") when the marker occurs twice or more. */
  datatype EntryError = TooManyValues

  /** `float(wait_val)`, with 0 when it raises. */
  function WaitValue(s: string): real {
    ParseNumber(s).GetOr(0.0)
  }

  /** The executable and arguments from tokenizing `cmd`: the first token and the rest,
      or the whole of `cmd` with no arguments when tokenizing fails or gives no token. */
  function Command(cmd: string, wait: real): (e: LaunchEntry)
    ensures e.wait == wait
    ensures Tokenize(cmd).Some? && Tokenize(cmd).value != [] ==>
              [e.exe] + e.args == Tokenize(cmd).value
    ensures Tokenize(cmd).None? || Tokenize(cmd).value == [] ==> e.exe == cmd && e.args == []
  {
    match Tokenize(cmd)
    case Some(tokens) =>
      if tokens == [] then LaunchEntry(cmd, [], wait) else LaunchEntry(tokens[0], tokens[1..], wait)
    case None => LaunchEntry(cmd, [], wait)
  }

  /** The parse of one entry in the launch loop. */
  function ParseEntry(raw: string): Result<LaunchEntry, EntryError> {
    var pieces := Split(raw);
    if |pieces| == 1 then Ok(Command(raw, 0.0))
    else if |pieces| == 2 then Ok(Command(pieces[0], WaitValue(pieces[1])))
    else Err(TooManyValues)
  }

  /** Without the marker the whole entry is the command and the wait is 0. */
  lemma ParseWithoutMarker(raw: string)
    requires !HasMarker(raw)
    ensures ParseEntry(raw) == Ok(Command(raw, 0.0))
  {
    SplitSingle(raw);
  }

  /** With one marker, the text before it is the command and the text after it the wait,
      0 when it is not a number. */
  lemma ParseWithMarker(cmd: string, wait: string)
    requires !HasMarker(cmd) && !HasMarker(wait)
    ensures ParseEntry(cmd + Marker + wait) == Ok(Command(cmd, WaitValue(wait)))
  {
    var pieces := [cmd, wait];
    assert pieces[1..] == [wait];
    assert Join(pieces) == cmd + Marker + wait;
    SplitJoin(pieces);
  }

  /** Two markers, the second starting after the first ends. */
  predicate TwoMarkers(raw: string) {
    exists i: nat, j: nat :: j < |raw| && MarkerAt(raw, i) && MarkerAt(raw, j) && i + |Marker| <= j
  }

  /** The entry is rejected exactly when the marker occurs twice (without overlap, which
      the marker cannot do anyway): the split is never taken at the last occurrence. */
  lemma ParseRejectsTwoMarkers(raw: string)
    ensures ParseEntry(raw).Err? <==> TwoMarkers(raw)
  {
    if |Split(raw)| >= 3 {
      ManyPiecesTwoMarkers(raw);
    } else if TwoMarkers(raw) {
      var i: nat, j: nat :| j < |raw| && MarkerAt(raw, i) && MarkerAt(raw, j) && i + |Marker| <= j;
      TwoMarkersManyPieces(raw, i, j);
    }
  }

  lemma ManyPiecesTwoMarkers(raw: string)
    requires |Split(raw)| >= 3
    ensures TwoMarkers(raw)
  {
    var pieces := Split(raw);
    JoinSplit(raw);
    var p0, p1 := pieces[0], pieces[1];
    var tail := Join(pieces[2..]);
    assert pieces[1..][1..] == pieces[2..];
    assert Join(pieces[1..]) == p1 + Marker + tail;
    assert raw == p0 + Marker + (p1 + Marker + tail);
    var i, j := |p0|, |p0| + |Marker| + |p1|;
    assert raw[i..i + |Marker|] == Marker;
    assert raw[j..j + |Marker|] == Marker;
    assert MarkerAt(raw, i) && MarkerAt(raw, j);
  }

  lemma TwoMarkersManyPieces(raw: string, i: nat, j: nat)
    requires MarkerAt(raw, i) && MarkerAt(raw, j) && i + |Marker| <= j
    ensures |Split(raw)| >= 3
  {
    var first := FindMarker(raw, 0).value;
    var rest := raw[first + |Marker|..];
    assert first <= i;
    var k := j - first - |Marker|;
    assert rest[k..k + |Marker|] == raw[j..j + |Marker|];
    assert k < |rest| && MarkerAt(rest, k);
    SplitSingle(rest);
    assert Split(raw) == [raw[..first]] + Split(rest);
  }

  /** A command line written from words (none holding '"' or the marker) followed by the
      marker and a wait text parses back to those words and that wait. */
  lemma ParseRoundTrip(words: seq<string>, wait: string)
    requires |words| > 0
    requires forall k :: 0 <= k < |words| ==> NoDoubleQuote(words[k])
    requires !HasMarker(CommandLine(words)) && !HasMarker(wait)
    ensures ParseEntry(CommandLine(words) + Marker + wait)
         == Ok(LaunchEntry(words[0], words[1..], WaitValue(wait)))
  {
    ParseWithMarker(CommandLine(words), wait);
    TokenizeCommandLine(words);
  }
}
