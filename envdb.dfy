/** The read path of the env-file store: an env file holds one `KEY=VALUE`
    record per line, and `Get` looks a key up by scanning the lines in order.

    The file system is abstracted away: an `EnvFile` is `None` when the file
    cannot be opened, and otherwise the sequence of its lines, where a line
    whose read returned an error is `None`. */
module EnvDb {
  import opened Wrappers

  /** A key and its value, as read from one line of the file. */
  datatype EnvPair = EnvPair(key: string, value: string)

  /** What opening and reading the file line by line yields. */
  type EnvFile = Option<seq<Option<string>>>

  /** The delimiter between key and value. */
  const Delimiter: char := '='

  // ---------------------------------------------------------------------------
  // Line parser
  // ---------------------------------------------------------------------------

  /** Splits `s` at the first occurrence of `d`, giving the text before it and
      the text after it; `None` when `d` does not occur (Rust's `split_once`). */
  function SplitOnce(s: string, d: char): (r: Option<(string, string)>)
    ensures r.None? <==> d !in s
    ensures r.Some? ==> d !in r.value.0 && r.value.0 + [d] + r.value.1 == s
  {
    if s == [] then None
    else if s[0] == d then
      assert s == [] + [d] + s[1..];
      Some(([], s[1..]))
    else
      var rest := SplitOnce(s[1..], d);
      assert s == [s[0]] + s[1..];
      if rest.None? then None
      else
        assert [s[0]] + rest.value.0 + [d] + rest.value.1 == [s[0]] + (rest.value.0 + [d] + rest.value.1);
        Some(([s[0]] + rest.value.0, rest.value.1))
  }

  /** Parses one line into a pair, splitting at its first `=`. The source
      panics on a line without `=`; here that is the precondition. */
  function LineToEnvPair(line: string): (r: EnvPair)
    requires Delimiter in line
    ensures Delimiter !in r.key
    ensures r.key + [Delimiter] + r.value == line
  {
    var split := SplitOnce(line, Delimiter).value;
    EnvPair(split.0, split.1)
  }

  /** There is only one way to write a line as a key without `=`, then `=`,
      then a value: the parse of the line is that key and that value. */
  lemma {:induction false} LineToEnvPairUnique(line: string, k: string, v: string)
    requires Delimiter !in k
    requires k + [Delimiter] + v == line
    ensures Delimiter in line
    ensures LineToEnvPair(line) == EnvPair(k, v)
  {
    assert line[|k|] == Delimiter;
    var p := LineToEnvPair(line);
    // The first `=` of the line sits right after `k`, and also right after `p.key`.
    assert forall j :: 0 <= j < |k| ==> line[j] == k[j] != Delimiter;
    assert forall j :: 0 <= j < |p.key| ==> line[j] == p.key[j] != Delimiter;
    assert line[|p.key|] == Delimiter;
    assert |p.key| == |k|;
    assert p.key == line[..|k|] == k;
    assert p.value == line[|k| + 1..] == v;
  }

  /** Joining a key without `=` and any value with `=` and parsing the result
      gives back that key and that value, even when the value is empty or
      itself contains `=`. */
  lemma LineToEnvPairRoundTrip(p: EnvPair)
    requires Delimiter !in p.key
    ensures Delimiter in p.key + [Delimiter] + p.value
    ensures LineToEnvPair(p.key + [Delimiter] + p.value) == p
  {
    LineToEnvPairUnique(p.key + [Delimiter] + p.value, p.key, p.value);
  }

  /** Everything after the first `=` is the value. */
  lemma LineToEnvPairKeepsLaterDelimiters()
    ensures LineToEnvPair("A=b=c") == EnvPair("A", "b=c")
    ensures LineToEnvPair("A=") == EnvPair("A", "")
  {
  }

  // ---------------------------------------------------------------------------
  // Lookup
  // ---------------------------------------------------------------------------

  /** The prefix `Get` looks for: the key followed by `=`. */
  function KeyWithEqual(key: string): (r: string)
    ensures |r| == |key| + 1 && r[..|key|] == key && r[|key|] == Delimiter
  {
    key + [Delimiter]
  }

  /** A readable line that starts with `key=`. */
  predicate Matches(line: Option<string>, key: string): (b: bool)
    ensures b <==> line.Some? && |line.value| > |key|
                   && line.value[..|key|] == key && line.value[|key|] == Delimiter
  {
    line.Some? && KeyWithEqual(key) <= line.value
  }

  /** A line that starts with `key=` contains `=`, so parsing it never panics. */
  lemma MatchingLineHasDelimiter(line: string, key: string)
    requires KeyWithEqual(key) <= line
    ensures Delimiter in line
  {
  }

  /** The scan of the source, as a recursive function: the parse of the first
      readable line that starts with `key=`, skipping unreadable lines. */
  function ScanLines(lines: seq<Option<string>>, key: string): (r: Option<EnvPair>)
    ensures r.Some? ==> exists i :: 0 <= i < |lines| && Matches(lines[i], key)
                                    && r.value.key + [Delimiter] + r.value.value == lines[i].value
    ensures r.Some? ==> Delimiter !in r.value.key
  {
    if lines == [] then None
    else if Matches(lines[0], key) then
      MatchingLineHasDelimiter(lines[0].value, key);
      Some(LineToEnvPair(lines[0].value))
    else ScanLines(lines[1..], key)
  }

  /** The whole outcome of a lookup, including both error messages. */
  function GetResult(file: EnvFile, path: string, key: string): (r: Result<EnvPair, string>)
    ensures file.None? ==> r == Err("Failed to open the file: " + path)
    ensures file.Some? && r.Err? ==> r == Err("Not found key in env file: " + path)
    ensures r.Ok? ==> Delimiter !in r.value.key
  {
    match file
    case None => Err("Failed to open the file: " + path)
    case Some(lines) =>
      match ScanLines(lines, key)
      case Some(pair) => Ok(pair)
      case None => Err("Not found key in env file: " + path)
  }

  /** When line `i` is the first matching one, the scan returns its parse. */
  lemma {:induction false} ScanLinesFirstMatch(lines: seq<Option<string>>, key: string, i: nat)
    requires i < |lines| && Matches(lines[i], key)
    requires forall j :: 0 <= j < i ==> !Matches(lines[j], key)
    ensures Delimiter in lines[i].value
    ensures ScanLines(lines, key) == Some(LineToEnvPair(lines[i].value))
  {
    MatchingLineHasDelimiter(lines[i].value, key);
    if i > 0 {
      assert !Matches(lines[0], key);
      assert lines[1..][i - 1] == lines[i];
      forall j | 0 <= j < i - 1 ensures !Matches(lines[1..][j], key) {
        assert lines[1..][j] == lines[j + 1];
      }
      ScanLinesFirstMatch(lines[1..], key, i - 1);
    }
  }

  /** The scan finds nothing exactly when no readable line starts with `key=`. */
  lemma {:induction false} ScanLinesNone(lines: seq<Option<string>>, key: string)
    ensures ScanLines(lines, key).None? <==> forall i :: 0 <= i < |lines| ==> !Matches(lines[i], key)
  {
    if lines != [] {
      ScanLinesNone(lines[1..], key);
      if !Matches(lines[0], key) {
        forall i | 0 < i < |lines| ensures lines[i] == lines[1..][i - 1] { }
      }
    }
  }

  /** Once a match is found, whatever follows it is never looked at: a later
      line with the same key does not change the result. */
  lemma {:induction false} ScanLinesIgnoresLater(lines: seq<Option<string>>, rest: seq<Option<string>>, key: string)
    requires ScanLines(lines, key).Some?
    ensures ScanLines(lines + rest, key) == ScanLines(lines, key)
  {
    assert (lines + rest)[0] == lines[0];
    if !Matches(lines[0], key) {
      assert (lines + rest)[1..] == lines[1..] + rest;
      ScanLinesIgnoresLater(lines[1..], rest, key);
    }
  }

  /** An unreadable line, wherever it sits, is skipped and the scan goes on. */
  lemma {:induction false} ScanLinesSkipsUnreadable(lines: seq<Option<string>>, i: nat, key: string)
    requires i <= |lines|
    ensures ScanLines(lines[..i] + [None] + lines[i..], key) == ScanLines(lines, key)
  {
    var withGap := lines[..i] + [None] + lines[i..];
    if i == 0 {
      assert withGap[0] == None;
      assert withGap[1..] == lines;
    } else {
      assert withGap[0] == lines[0];
      assert withGap[1..] == lines[1..][..i - 1] + [None] + lines[1..][i - 1..];
      ScanLinesSkipsUnreadable(lines[1..], i - 1, key);
    }
  }

  /** `get` of the source: opens the file, then walks its lines in order and
      returns the pair from the first readable line starting with `key=`;
      unreadable lines are skipped. */
  method Get(file: EnvFile, path: string, key: string) returns (r: Result<EnvPair, string>)
    ensures r == GetResult(file, path, key)
  {
    var keyWithEqual := KeyWithEqual(key);
    if file.None? {
      return Err("Failed to open the file: " + path);
    }
    var lines := file.value;
    var i := 0;
    while i < |lines|
      invariant 0 <= i <= |lines|
      invariant forall j :: 0 <= j < i ==> !Matches(lines[j], key)
    {
      var line := lines[i];
      if line.Some? {
        if keyWithEqual <= line.value {
          MatchingLineHasDelimiter(line.value, key);
          var pair := LineToEnvPair(line.value);
          ScanLinesFirstMatch(lines, key, i);
          return Ok(pair);
        }
      }
      i := i + 1;
    }
    ScanLinesNone(lines, key);
    return Err("Not found key in env file: " + path);
  }

  /** The pair found for a key without `=` carries exactly that key, and its
      value is the rest of the first matching line after `key=`. */
  lemma GetFindsRequestedKey(lines: seq<Option<string>>, path: string, key: string, i: nat)
    requires Delimiter !in key
    requires i < |lines| && Matches(lines[i], key)
    requires forall j :: 0 <= j < i ==> !Matches(lines[j], key)
    ensures GetResult(Some(lines), path, key) == Ok(EnvPair(key, lines[i].value[|key| + 1..]))
  {
    var line := lines[i].value;
    ScanLinesFirstMatch(lines, key, i);
    assert line == key + [Delimiter] + line[|key| + 1..];
    LineToEnvPairUnique(line, key, line[|key| + 1..]);
  }

  /** The parse of `key=rest`, for a key that contains `=`, splits inside
      the key: it has the same key part as the parse of the key alone. */
  lemma ParseSplitsInsideKey(key: string, rest: string)
    requires Delimiter in key
    ensures Delimiter in key + [Delimiter] + rest
    ensures LineToEnvPair(key + [Delimiter] + rest).key == LineToEnvPair(key).key
  {
    var k := LineToEnvPair(key);
    var line := key + [Delimiter] + rest;
    calc {
      line;
      (k.key + [Delimiter] + k.value) + [Delimiter] + rest;
      k.key + [Delimiter] + (k.value + [Delimiter] + rest);
    }
    LineToEnvPairUnique(line, k.key, k.value + [Delimiter] + rest);
  }

  /** For a key that itself contains `=`, the pair found carries only the part
      of the key before its first `=`. */
  lemma GetTruncatesKeyWithDelimiter(lines: seq<Option<string>>, path: string, key: string, i: nat)
    requires Delimiter in key
    requires i < |lines| && Matches(lines[i], key)
    requires forall j :: 0 <= j < i ==> !Matches(lines[j], key)
    ensures GetResult(Some(lines), path, key).Ok?
    ensures GetResult(Some(lines), path, key).value.key == LineToEnvPair(key).key
  {
    var line := lines[i].value;
    ScanLinesFirstMatch(lines, key, i);
    var rest := line[|key| + 1..];
    assert line == key + [Delimiter] + rest;
    ParseSplitsInsideKey(key, rest);
  }

  /** A lookup in a readable file fails exactly when no readable line starts
      with `key=`, and then with the not-found message naming the path. */
  lemma GetNotFound(lines: seq<Option<string>>, path: string, key: string)
    ensures GetResult(Some(lines), path, key) == Err("Not found key in env file: " + path)
        <==> forall i :: 0 <= i < |lines| ==> !Matches(lines[i], key)
  {
    ScanLinesNone(lines, key);
  }

  /** The test env file: `SOME_APP_KEY=app-key`, then `SOME_APP_SECRET=app-secret`. */
  function TestEnvLines(): (r: seq<Option<string>>)
    ensures |r| == 2 && r[0].Some? && r[1].Some?
  {
    [Some("SOME_APP_KEY=app-key"), Some("SOME_APP_SECRET=app-secret")]
  }

  /** Looking up `SOME_APP_KEY` in the test file finds `app-key`. */
  lemma GetScenarioFound()
    ensures GetResult(Some(TestEnvLines()), "tests/.test-env", "SOME_APP_KEY")
         == Ok(EnvPair("SOME_APP_KEY", "app-key"))
  {
    var lines := TestEnvLines();
    assert Matches(lines[0], "SOME_APP_KEY") by {
      assert KeyWithEqual("SOME_APP_KEY") == lines[0].value[..13];
    }
    LineToEnvPairUnique(lines[0].value, "SOME_APP_KEY", "app-key");
  }

  /** Looking up a key the test file lacks fails with the not-found message. */
  lemma GetScenarioNotFound()
    ensures GetResult(Some(TestEnvLines()), "tests/.test-env", "NOT_FOUND_KEY")
         == Err("Not found key in env file: tests/.test-env")
  {
    var lines := TestEnvLines();
    assert !Matches(lines[0], "NOT_FOUND_KEY") by {
      assert lines[0].value[0] != KeyWithEqual("NOT_FOUND_KEY")[0];
    }
    assert !Matches(lines[1], "NOT_FOUND_KEY") by {
      assert lines[1].value[0] != KeyWithEqual("NOT_FOUND_KEY")[0];
    }
    assert ScanLines(lines[1..], "NOT_FOUND_KEY") == None by {
      assert lines[1..][1..] == [];
    }
    assert "Not found key in env file: " + "tests/.test-env" == "Not found key in env file: tests/.test-env";
  }

  /** Looking up anything in a file that cannot be opened fails with the
      open-failure message naming the path. */
  lemma GetScenarioOpenFailure()
    ensures GetResult(None, "tests/.not-found-env", "SOME_APP_KEY")
         == Err("Failed to open the file: tests/.not-found-env")
  {
    assert "Failed to open the file: " + "tests/.not-found-env" == "Failed to open the file: tests/.not-found-env";
  }
}
