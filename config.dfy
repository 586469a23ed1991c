/**
  The bootstrap-peer list parser of the configuration: the comma-separated
  setting is split on every comma, each segment is trimmed of surrounding
  white space, and empty segments are dropped.
 */
module Config {

  /** Go's `unicode.IsSpace`: the Unicode White_Space characters. */
  predicate IsSpace(c: char) {
    var n := c as int;
    || (9 <= n <= 13) || n == 32 || n == 0x85 || n == 0xA0 || n == 0x1680
    || (0x2000 <= n <= 0x200A) || n == 0x2028 || n == 0x2029 || n == 0x202F || n == 0x205F || n == 0x3000
  }

  /** Drop leading white space. */
  function TrimLeft(s: string): (r: string)
    ensures |r| <= |s|
    ensures r == [] || !IsSpace(r[0])
    decreases |s|
  {
    if s != [] && IsSpace(s[0]) then TrimLeft(s[1..]) else s
  }

  /** Drop trailing white space: what is left is a prefix of the input. */
  function TrimRight(s: string): (r: string)
    ensures r <= s
    ensures r == [] || !IsSpace(r[|r| - 1])
    decreases |s|
  {
    if s != [] && IsSpace(s[|s| - 1]) then TrimRight(s[..|s| - 1]) else s
  }

  /** strings.TrimSpace: no white space left at either end. */
  function TrimSpace(s: string): (r: string)
    ensures |r| <= |s|
    ensures r == [] || (!IsSpace(r[0]) && !IsSpace(r[|r| - 1]))
  {
    TrimRight(TrimLeft(s))
  }

  /** TrimLeft removes a run of white space from the front and nothing else. */
  lemma {:induction false} TrimLeftSuffix(s: string)
    ensures TrimLeft(s) == s[|s| - |TrimLeft(s)|..]
    ensures forall i :: 0 <= i < |s| - |TrimLeft(s)| ==> IsSpace(s[i])
    decreases |s|
  {
    if s != [] && IsSpace(s[0]) {
      TrimLeftSuffix(s[1..]);
    }
  }

  /** TrimRight removes a run of white space from the back and nothing else. */
  lemma {:induction false} TrimRightPrefix(s: string)
    ensures forall i :: |TrimRight(s)| <= i < |s| ==> IsSpace(s[i])
    decreases |s|
  {
    if s != [] && IsSpace(s[|s| - 1]) {
      TrimRightPrefix(s[..|s| - 1]);
    }
  }

  /** The trimmed text is a slice of the input, so it holds no character the input lacks. */
  lemma TrimSpaceIsSlice(s: string)
    ensures exists i, j :: 0 <= i <= j <= |s| && TrimSpace(s) == s[i..j]
  {
    var l := TrimLeft(s);
    var r := TrimRight(l);
    TrimLeftSuffix(s);
    assert r == l[..|r|];
    assert r == s[|s| - |l|..|s| - |l| + |r|];
  }

  /** A character absent from the input is absent from its trim. */
  lemma TrimKeepsAbsent(s: string, c: char)
    requires c !in s
    ensures c !in TrimSpace(s)
  {
    TrimSpaceIsSlice(s);
    var i, j :| 0 <= i <= j <= |s| && TrimSpace(s) == s[i..j];
    forall k | 0 <= k < j - i ensures s[i..j][k] != c {
      assert s[i..j][k] == s[i + k];
    }
  }

  /** The trim is empty exactly when the input is blank (all white space, or empty). */
  lemma TrimSpaceBlank(s: string)
    ensures TrimSpace(s) == [] <==> forall i :: 0 <= i < |s| ==> IsSpace(s[i])
  {
    var l := TrimLeft(s);
    var r := TrimRight(l);
    TrimLeftSuffix(s);
    TrimRightPrefix(l);
    if r == [] {
      forall i | 0 <= i < |s| ensures IsSpace(s[i]) {
        if i >= |s| - |l| {
          assert s[i] == l[i - (|s| - |l|)];
        }
      }
    } else {
      assert r[0] == l[0] == s[|s| - |l|];
    }
  }

  function CommaCount(s: string): nat {
    if s == [] then 0 else (if s[0] == ',' then 1 else 0) + CommaCount(s[1..])
  }

  /** strings.Split on ",": the text between consecutive commas, one more segment than there are commas. */
  function Split(s: string): (parts: seq<string>)
    ensures |parts| == CommaCount(s) + 1
    ensures forall k :: 0 <= k < |parts| ==> ',' !in parts[k]
    decreases |s|
  {
    if s == [] then [[]]
    else if s[0] == ',' then [[]] + Split(s[1..])
    else
      var rest := Split(s[1..]);
      [[s[0]] + rest[0]] + rest[1..]
  }

  /** strings.Join with ",". */
  function Join(parts: seq<string>): string
    requires |parts| > 0
    decreases |parts|
  {
    if |parts| == 1 then parts[0] else parts[0] + [','] + Join(parts[1..])
  }

  /** Joining the segments back with commas gives the input: Split loses nothing. */
  lemma {:induction false} JoinSplit(s: string)
    ensures Join(Split(s)) == s
    decreases |s|
  {
    if s != [] {
      JoinSplit(s[1..]);
      var rest := Split(s[1..]);
      if s[0] == ',' {
        assert Split(s)[1..] == rest;
      } else {
        var parts := Split(s);
        assert parts[0] == [s[0]] + rest[0] && parts[1..] == rest[1..];
        if |rest| == 1 {
          assert Join(parts) == [s[0]] + rest[0];
        } else {
          assert Join(parts) == [s[0]] + rest[0] + [','] + Join(rest[1..]);
        }
      }
    }
  }

  /** The loop body of parseBootstrapPeers, over all segments: trim each one and keep it unless empty. */
  function Cleaned(parts: seq<string>): seq<string>
    decreases |parts|
  {
    if parts == [] then []
    else
      var t := TrimSpace(parts[|parts| - 1]);
      Cleaned(parts[..|parts| - 1]) + (if t != [] then [t] else [])
  }

  /** parseBootstrapPeers. */
  method ParseBootstrapPeers(peersStr: string) returns (result: seq<string>)
    ensures peersStr == "" ==> result == []
    ensures result == Cleaned(Split(peersStr))
  {
    if peersStr == "" {
      return [];
    }
    var peers := Split(peersStr);
    result := [];
    for i := 0 to |peers|
      invariant result == Cleaned(peers[..i])
    {
      assert peers[..i + 1][..i] == peers[..i];
      var peer := TrimSpace(peers[i]);
      if peer != "" {
        result := result + [peer];
      }
    }
    assert peers[..|peers|] == peers;
  }

  /** Every kept element is the trim of some segment, and none is empty. */
  lemma {:induction false} CleanedOrigin(parts: seq<string>)
    ensures forall x :: x in Cleaned(parts) ==> x != [] && exists k :: 0 <= k < |parts| && x == TrimSpace(parts[k])
    decreases |parts|
  {
    if parts != [] {
      var init := parts[..|parts| - 1];
      CleanedOrigin(init);
      forall x | x in Cleaned(parts)
        ensures x != [] && exists k :: 0 <= k < |parts| && x == TrimSpace(parts[k])
      {
        if x in Cleaned(init) {
          var k :| 0 <= k < |init| && x == TrimSpace(init[k]);
          assert parts[k] == init[k];
        } else {
          assert x == TrimSpace(parts[|parts| - 1]);
        }
      }
    }
  }

  /** Every kept element is the trim of some segment: non-empty and not blank at either end. */
  lemma CleanedElements(parts: seq<string>)
    ensures forall x :: x in Cleaned(parts) ==>
      && x != [] && !IsSpace(x[0]) && !IsSpace(x[|x| - 1])
      && exists k :: 0 <= k < |parts| && x == TrimSpace(parts[k])
  {
    CleanedOrigin(parts);
    forall x | x in Cleaned(parts)
      ensures x != [] && !IsSpace(x[0]) && !IsSpace(x[|x| - 1])
    {
      var k :| 0 <= k < |parts| && x == TrimSpace(parts[k]);
    }
  }

  /** Conversely, the trim of every segment that is not blank is kept. */
  lemma {:induction false} CleanedKeepsNonBlank(parts: seq<string>, k: int)
    requires 0 <= k < |parts| && TrimSpace(parts[k]) != []
    ensures TrimSpace(parts[k]) in Cleaned(parts)
    decreases |parts|
  {
    var init := parts[..|parts| - 1];
    if k < |parts| - 1 {
      assert init[k] == parts[k];
      CleanedKeepsNonBlank(init, k);
    }
  }

  /** No more results than segments. */
  lemma {:induction false} CleanedLength(parts: seq<string>)
    ensures |Cleaned(parts)| <= |parts|
    decreases |parts|
  {
    if parts != [] {
      CleanedLength(parts[..|parts| - 1]);
    }
  }

  /** Cleaning distributes over concatenation: surviving segments keep their input order. */
  lemma {:induction false} CleanedAppend(a: seq<string>, b: seq<string>)
    ensures Cleaned(a + b) == Cleaned(a) + Cleaned(b)
    decreases |b|
  {
    if b == [] {
      assert a + b == a;
    } else {
      var b0 := b[..|b| - 1];
      CleanedAppend(a, b0);
      assert (a + b)[..|a + b| - 1] == a + b0;
    }
  }

  /** The promises of parseBootstrapPeers. */
  lemma ParseResult(s: string)
    ensures var r := Cleaned(Split(s));
      && (s == "" ==> r == [])
      && |r| <= CommaCount(s) + 1
      && forall x :: x in r ==>
           && x != [] && !IsSpace(x[0]) && !IsSpace(x[|x| - 1]) && ',' !in x
           && exists k :: 0 <= k < |Split(s)| && x == TrimSpace(Split(s)[k])
  {
    var parts := Split(s);
    CleanedLength(parts);
    CleanedElements(parts);
    forall x | x in Cleaned(parts) ensures ',' !in x {
      var k :| 0 <= k < |parts| && x == TrimSpace(parts[k]);
      TrimKeepsAbsent(parts[k], ',');
    }
  }
}
