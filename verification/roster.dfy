/** Server.setReplicaMapping: the peer table built from the roster file,
    one `name ip port` line per node. */
module Roster {
  import opened Wrappers
  import opened JavaText
  import opened Replicas
  import opened Ownership
  import opened FileProcessor

  /** The characters the regular expression `\s` matches. */
  const RegexSpace: set<char> := {' ', '\t', '\n', '\U{B}', '\U{C}', '\r'}

  /**
   * One roster line, in the order the Java code touches the fields: the
   * address (field 1), the port (field 2, `Integer.parseInt`), then the
   * foreign range chosen from the name (field 0).
   */
  function ParseRosterLine(line: string): (r: Result<(string, Replica), ParseError>)
    ensures var arr := Split(line, RegexSpace);
      && (r.Success? <==> |arr| >= 3 && ParseInt(arr[2]).Some?)
      && (r.Failure? ==> r.error == if |arr| < 3 then MissingField else BadNumber)
      && (r.Success? ==> r.value.0 == arr[0] && r.value.1.ip == Some(arr[1]) && r.value.1.port == ParseInt(arr[2]).value)
    ensures r.Success? ==> r.value.1.start == DescriptorOf(r.value.0).start
    ensures r.Success? ==> r.value.1.end == DescriptorOf(r.value.0).end
    ensures r.Success? ==> r.value.1.replicaName.None?
  {
    var arr := Split(line, RegexSpace);
    if |arr| < 3 then Failure(MissingField)
    else
      match ParseInt(arr[2])
      case None => Failure(BadNumber)
      case Some(port) =>
        Success((arr[0], WithForeignRange(SetPort(SetIp(NewReplica(), arr[1]), port), arr[0])))
  }

  /** The range a peer table entry must carry for its name. */
  predicate RangeFromName(name: string, r: Replica)
  {
    r.start == DescriptorOf(name).start && r.end == DescriptorOf(name).end
  }

  /** The parse of every roster line, in file order. */
  function ParseLines(input: seq<string>): (r: seq<Result<(string, Replica), ParseError>>)
    ensures |r| == |input|
    ensures forall i :: 0 <= i < |input| ==> r[i] == ParseRosterLine(Trim(input[i]))
  {
    if input == [] then [] else [ParseRosterLine(Trim(input[0]))] + ParseLines(input[1..])
  }

  /** The values of a run of results, or the first failure among them. */
  function Collect<T>(rs: seq<Result<T, ParseError>>): (r: Result<seq<T>, ParseError>)
    ensures r.Success? ==> |r.value| == |rs|
  {
    if rs == [] then Success([])
    else if rs[0].Failure? then Failure(rs[0].error)
    else
      match Collect(rs[1..])
      case Failure(e) => Failure(e)
      case Success(rest) => Success([rs[0].value] + rest)
  }

  /**
   * `setReplicaMapping`'s reading loop: every line parsed in file order,
   * and the first malformed line aborts. Its exception leaves the method
   * and ends start-up, so the half-built table is never used, and parsing
   * all lines before recording any gives the same outcome.
   */
  function ParseRoster(input: seq<string>): (r: Result<seq<(string, Replica)>, ParseError>)
    ensures r.Success? ==> |r.value| == |input|
  {
    Collect(ParseLines(input))
  }

  /** Recording one parsed line: skipped when it names the server itself. */
  function RecordPeer(serverName: string, peers: map<string, Replica>, name: string, replica: Replica)
    : (m: map<string, Replica>)
    ensures m.Keys == peers.Keys + (if EqualsIgnoreCase(serverName, name) then {} else {name})
    ensures forall n :: n in peers && n != name ==> m[n] == peers[n]
    ensures !EqualsIgnoreCase(serverName, name) ==> m[name] == replica
    ensures EqualsIgnoreCase(serverName, name) ==> m == peers
  {
    if !EqualsIgnoreCase(serverName, name) then peers[name := replica] else peers
  }

  /** The parsed lines recorded in file order; a later line with the same
      name replaces the earlier one (`HashMap.put`). */
  function RecordAll(serverName: string, peers: map<string, Replica>, parsed: seq<(string, Replica)>)
    : (m: map<string, Replica>)
    ensures peers.Keys <= m.Keys
    decreases |parsed|
  {
    if parsed == [] then peers
    else RecordAll(serverName, RecordPeer(serverName, peers, parsed[0].0, parsed[0].1), parsed[1..])
  }

  /** `setReplicaMapping`: read and parse every line, then record each peer
      under its name unless the name is the server's own, ignoring case. */
  function SetReplicaMapping(serverName: string, peers: map<string, Replica>, input: seq<string>)
    : (r: Result<map<string, Replica>, ParseError>)
    ensures r.Success? ==> peers.Keys <= r.value.Keys
    ensures r.Success? <==> ParseRoster(input).Success?
  {
    match ParseRoster(input)
    case Failure(e) => Failure(e)
    case Success(parsed) => Success(RecordAll(serverName, peers, parsed))
  }

  // ---------------------------------------------------------------------
  // Parsing
  // ---------------------------------------------------------------------

  /** A collected run holds, at position `i`, the value of result `i`. */
  lemma {:induction false} CollectAt<T>(rs: seq<Result<T, ParseError>>, i: nat)
    requires i < |rs| && Collect(rs).Success?
    ensures rs[i] == Success(Collect(rs).value[i])
    decreases i
  {
    if i > 0 {
      CollectAt(rs[1..], i - 1);
    }
  }

  /** Collecting fails when some result is a failure, and the error is the
      first failure's. */
  lemma {:induction false} CollectFails<T>(rs: seq<Result<T, ParseError>>, i: nat)
    requires i < |rs| && rs[i].Failure?
    requires forall j :: 0 <= j < i ==> rs[j].Success?
    ensures Collect(rs) == Failure(rs[i].error)
    decreases i
  {
    if i > 0 {
      CollectFails(rs[1..], i - 1);
    }
  }

  /** With no failure among them, the results collect. */
  lemma {:induction false} CollectSucceeds<T>(rs: seq<Result<T, ParseError>>)
    requires forall i :: 0 <= i < |rs| ==> rs[i].Success?
    ensures Collect(rs).Success?
    decreases |rs|
  {
    if rs != [] {
      CollectSucceeds(rs[1..]);
    }
  }

  /** The roster parses exactly when every line does, and then line by
      line; otherwise it fails with the first malformed line's error. */
  lemma RosterParsesEveryLine(input: seq<string>)
    ensures ParseRoster(input).Success? <==> forall i :: 0 <= i < |input| ==> ParseRosterLine(Trim(input[i])).Success?
    ensures ParseRoster(input).Success? ==>
      forall i :: 0 <= i < |input| ==> ParseRosterLine(Trim(input[i])) == Success(ParseRoster(input).value[i])
    ensures forall i ::
      (0 <= i < |input| && ParseRosterLine(Trim(input[i])).Failure? &&
       (forall j :: 0 <= j < i ==> ParseRosterLine(Trim(input[j])).Success?)) ==>
      ParseRoster(input) == Failure(ParseRosterLine(Trim(input[i])).error)
  {
    var rs := ParseLines(input);
    if Collect(rs).Success? {
      forall i | 0 <= i < |input| ensures rs[i] == Success(Collect(rs).value[i]) {
        CollectAt(rs, i);
      }
    } else {
      CollectSucceedsContra(rs);
    }
    forall i | 0 <= i < |input| && rs[i].Failure? && (forall j :: 0 <= j < i ==> rs[j].Success?)
      ensures Collect(rs) == Failure(rs[i].error)
    {
      CollectFails(rs, i);
    }
  }

  /** A failed collection has a failure among its results. */
  lemma CollectSucceedsContra<T>(rs: seq<Result<T, ParseError>>)
    requires Collect(rs).Failure?
    ensures exists i :: 0 <= i < |rs| && rs[i].Failure?
  {
    if forall i :: 0 <= i < |rs| ==> rs[i].Success? {
      CollectSucceeds(rs);
    }
  }

  // ---------------------------------------------------------------------
  // Recording
  // ---------------------------------------------------------------------

  /** Every parsed line naming another node ends up in the table. */
  lemma {:induction false} RecordAllCovers(serverName: string, peers: map<string, Replica>, parsed: seq<(string, Replica)>)
    ensures forall i :: 0 <= i < |parsed| && !EqualsIgnoreCase(serverName, parsed[i].0) ==>
      parsed[i].0 in RecordAll(serverName, peers, parsed)
    decreases |parsed|
  {
    if parsed != [] {
      var peers' := RecordPeer(serverName, peers, parsed[0].0, parsed[0].1);
      RecordAllCovers(serverName, peers', parsed[1..]);
      forall i | 0 < i < |parsed| ensures parsed[i] == parsed[1..][i - 1] {
      }
    }
  }

  /** `parsed[i]` is the last line that names `parsed[i].0`. */
  predicate LastFor(parsed: seq<(string, Replica)>, i: int)
  {
    0 <= i < |parsed| && forall j :: i < j < |parsed| ==> parsed[j].0 != parsed[i].0
  }

  /** The table holds, for each name another node's line records, the last
      such line: a later line replaces an earlier one. */
  lemma {:induction false} RecordAllLastWins(serverName: string, peers: map<string, Replica>,
                                             parsed: seq<(string, Replica)>, i: nat)
    requires LastFor(parsed, i) && !EqualsIgnoreCase(serverName, parsed[i].0)
    ensures parsed[i].0 in RecordAll(serverName, peers, parsed)
    ensures RecordAll(serverName, peers, parsed)[parsed[i].0] == parsed[i].1
    decreases |parsed|
  {
    var peers' := RecordPeer(serverName, peers, parsed[0].0, parsed[0].1);
    if i > 0 {
      assert parsed[1..][i - 1] == parsed[i];
      assert LastFor(parsed[1..], i - 1) by {
        forall j | i - 1 < j < |parsed[1..]| ensures parsed[1..][j].0 != parsed[i].0 {
          assert parsed[1..][j] == parsed[j + 1];
        }
      }
      RecordAllLastWins(serverName, peers', parsed[1..], i - 1);
    } else {
      RecordAllKeeps(serverName, peers', parsed[1..], parsed[0].0);
    }
  }

  /** A name no line records keeps the entry the table started with. */
  lemma {:induction false} RecordAllKeeps(serverName: string, peers: map<string, Replica>,
                                          parsed: seq<(string, Replica)>, n: string)
    requires n in peers
    requires forall j :: 0 <= j < |parsed| ==> parsed[j].0 != n
    ensures n in RecordAll(serverName, peers, parsed)
    ensures RecordAll(serverName, peers, parsed)[n] == peers[n]
    decreases |parsed|
  {
    if parsed != [] {
      var peers' := RecordPeer(serverName, peers, parsed[0].0, parsed[0].1);
      assert parsed[0].0 != n;
      forall j | 0 <= j < |parsed[1..]| ensures parsed[1..][j].0 != n {
        assert parsed[1..][j] == parsed[j + 1];
      }
      RecordAllKeeps(serverName, peers', parsed[1..], n);
    }
  }

  /** Every entry of the table is one it started with, or a parsed line
      naming another node. */
  lemma {:induction false} RecordAllFromLines(serverName: string, peers: map<string, Replica>, parsed: seq<(string, Replica)>)
    ensures var m := RecordAll(serverName, peers, parsed);
      forall n :: n in m ==>
        ((n in peers && m[n] == peers[n]) ||
         (!EqualsIgnoreCase(serverName, n) && exists i :: 0 <= i < |parsed| && parsed[i] == (n, m[n])))
    decreases |parsed|
  {
    if parsed != [] {
      var peers' := RecordPeer(serverName, peers, parsed[0].0, parsed[0].1);
      RecordAllFromLines(serverName, peers', parsed[1..]);
      var m := RecordAll(serverName, peers, parsed);
      forall n | n in m && !(n in peers && m[n] == peers[n])
        ensures !EqualsIgnoreCase(serverName, n) && exists i :: 0 <= i < |parsed| && parsed[i] == (n, m[n])
      {
        if n in peers' && m[n] == peers'[n] {
          assert parsed[0] == (n, m[n]);
        } else {
          var i :| 0 <= i < |parsed[1..]| && parsed[1..][i] == (n, m[n]);
          assert parsed[i + 1] == (n, m[n]);
        }
      }
    }
  }

  // ---------------------------------------------------------------------
  // The peer table
  // ---------------------------------------------------------------------

  /** Every roster line naming another node has its name in the table. */
  lemma RosterCoversEveryLine(serverName: string, peers: map<string, Replica>, input: seq<string>)
    requires SetReplicaMapping(serverName, peers, input).Success?
    ensures forall i :: 0 <= i < |input| && !EqualsIgnoreCase(serverName, ParseRoster(input).value[i].0) ==>
      ParseRoster(input).value[i].0 in SetReplicaMapping(serverName, peers, input).value
  {
    RecordAllCovers(serverName, peers, ParseRoster(input).value);
  }

  /**
   * Every entry of the table is one it started with or the parse of a
   * roster line naming another node, and so carries the foreign range its
   * name selects.
   */
  lemma RosterEntriesComeFromLines(serverName: string, peers: map<string, Replica>, input: seq<string>)
    requires SetReplicaMapping(serverName, peers, input).Success?
    ensures var m := SetReplicaMapping(serverName, peers, input).value;
      forall n :: n in m ==>
        ((n in peers && m[n] == peers[n]) ||
         (!EqualsIgnoreCase(serverName, n) && RangeFromName(n, m[n]) &&
          exists i :: 0 <= i < |input| && ParseRosterLine(Trim(input[i])) == Success((n, m[n]))))
  {
    var parsed := ParseRoster(input).value;
    var m := SetReplicaMapping(serverName, peers, input).value;
    RecordAllFromLines(serverName, peers, parsed);
    forall n | n in m && !(n in peers && m[n] == peers[n])
      ensures !EqualsIgnoreCase(serverName, n) && RangeFromName(n, m[n]) &&
        exists i :: 0 <= i < |input| && ParseRosterLine(Trim(input[i])) == Success((n, m[n]))
    {
      var i :| 0 <= i < |parsed| && parsed[i] == (n, m[n]);
      CollectAt(ParseLines(input), i);
    }
  }
}
