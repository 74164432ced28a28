/** `parseUsers` (main.go): building the credential store from the `-users`
    configuration string `user1:pass1,user2:pass2`. Each `log.Fatalf` and
    `log.Fatal` of `parseUsers` becomes a `Failure` carrying a `ConfigError`. */
module Users {
  import opened Wrappers
  import opened Text

  /** Username to password. */
  type Store = map<string, string>

  /** The account installed when no users are configured. */
  const DefaultUser: string := "admin"
  const DefaultPassword: string := "123456"

  /** The reasons `parseUsers` stops the process at startup. */
  datatype ConfigError =
    | MalformedSegment(segment: string)   // a non-blank segment without ':'
    | EmptyCredential(segment: string)    // username or password blank
    | NoValidUsers                        // nothing was configured

  /** What one comma-separated segment contributes. */
  datatype Segment =
    | Blank
    | Entry(user: string, pass: string)
    | Bad(err: ConfigError)

  /** A credential as it can end up in the store. */
  predicate IsCredential(user: string, pass: string) {
    && user != ""
    && pass != ""
    && IsTrimmed(user)
    && IsTrimmed(pass)
    && ':' !in user
  }

  predicate AllCredentials(m: Store) {
    forall u :: u in m ==> IsCredential(u, m[u])
  }

  /** The store invariant after startup: at least one account, all well formed. */
  predicate ValidStore(m: Store) {
    |m| > 0 && AllCredentials(m)
  }

  /** One iteration of the loop over segments: trim, skip if blank, split on
      the first colon, trim both halves, reject blanks. */
  function ParseSegment(raw: string): (c: Segment)
    ensures c == Blank <==> AllSpace(raw)
    ensures (c.Bad? && c.err.MalformedSegment?) <==> (!AllSpace(raw) && ':' !in raw)
    ensures c.Bad? ==> !c.err.NoValidUsers? && c.err.segment == TrimSpace(raw)
    ensures c.Entry? ==> IsCredential(c.user, c.pass)
  {
    var pair := TrimSpace(raw);
    TrimSpaceKeeps(raw, ':');
    if pair == "" then Blank
    else
      var parts := SplitAtFirst(pair, ':');
      if |parts| != 2 then Bad(MalformedSegment(pair))
      else
        var user := TrimSpace(parts[0]);
        var pass := TrimSpace(parts[1]);
        TrimSpaceKeeps(parts[0], ':');
        if user == "" || pass == "" then Bad(EmptyCredential(pair))
        else Entry(user, pass)
  }

  /** The segments between commas, each classified as `ParseSegment` does. */
  function Classify(segs: seq<string>): (cs: seq<Segment>)
    ensures |cs| == |segs|
    ensures forall i :: 0 <= i < |segs| ==> cs[i] == ParseSegment(segs[i])
  {
    seq(|segs|, i requires 0 <= i < |segs| => ParseSegment(segs[i]))
  }

  /** Every account the segments from `from` on give is well formed. */
  predicate EntriesWellFormed(cs: seq<Segment>, from: nat) {
    forall i :: from <= i < |cs| && cs[i].Entry? ==> IsCredential(cs[i].user, cs[i].pass)
  }

  /** The loop of `parseUsers` from segment `from` on, `acc` being the map
      built so far: a blank segment is skipped, the first bad one stops
      everything, an account is inserted over any earlier one for the same
      username. */
  function AddSegments(cs: seq<Segment>, from: nat, acc: Store): (r: Result<Store, ConfigError>)
    requires from <= |cs|
    ensures r.Success? ==> acc.Keys <= r.value.Keys
    ensures r.Success? && AllCredentials(acc) && EntriesWellFormed(cs, from) ==> AllCredentials(r.value)
    ensures r.Failure? ==> Bad(r.error) in cs[from..]
    decreases |cs| - from
  {
    if from == |cs| then Success(acc)
    else
      match cs[from]
      case Blank => AddSegments(cs, from + 1, acc)
      case Bad(e) => Failure(e)
      case Entry(user, pass) => AddSegments(cs, from + 1, acc[user := pass])
  }

  /** The classified segments of a non-empty configuration string. */
  function SegmentsOf(userStr: string): (cs: seq<Segment>)
    ensures |cs| >= 1
    ensures EntriesWellFormed(cs, 0)
  {
    Classify(Split(userStr, ','))
  }

  /** `parseUsers`: the default account for an empty string, otherwise the
      accounts the segments between commas give, and an error if a segment is
      bad or none of them gave an account. */
  function ParseUsers(userStr: string): (r: Result<Store, ConfigError>)
    ensures userStr == "" ==> r == Success(map[DefaultUser := DefaultPassword])
    ensures r.Success? ==> ValidStore(r.value)
    ensures r.Failure? ==> userStr != ""
  {
    if userStr == "" then Success(map[DefaultUser := DefaultPassword])
    else
      match AddSegments(SegmentsOf(userStr), 0, map[])
      case Failure(e) => Failure(e)
      case Success(m) => if |m| == 0 then Failure(NoValidUsers) else Success(m)
  }

  // ---------------------------------------------------------------------
  // One segment

  /** Trimming the whole segment before splitting it does not change the
      halves: the colon is not whitespace, so it sits inside the trimmed part. */
  lemma SplitTrimmed(raw: string)
    requires ':' in raw
    ensures var p := SplitAtFirst(TrimSpace(raw), ':');
            var q := SplitAtFirst(raw, ':');
            |p| == 2 && TrimSpace(p[0]) == TrimSpace(q[0]) && TrimSpace(p[1]) == TrimSpace(q[1])
  {
    var t := TrimSpace(raw);
    TrimSpaceKeeps(raw, ':');
    TrimSpacePads(raw);
    var lo: nat :| PadsAt(raw, lo, t);
    var a, b := raw[..lo], raw[lo + |t|..];
    PadsAtSplits(raw, lo, t);
    assert ':' !in a by {
      assert forall k :: 0 <= k < |a| ==> a[k] != ':';
    }
    SplitAtFirstPrefixed(a, t, b, ':');
    var p := SplitAtFirst(t, ':');
    TrimSpaceLeftPadded(a, p[0]);
    TrimSpaceRightPadded(p[1], b);
  }

  /** `u` is `x` without surrounding whitespace, in the declarative sense. */
  lemma TrimSpaceIs(x: string, u: string)
    ensures TrimSpace(x) == u <==> IsTrimmed(u) && Pads(x, u)
  {
    TrimSpacePads(x);
    if IsTrimmed(u) && Pads(x, u) {
      TrimSpaceUnique(x, u);
    }
  }

  /** A segment yields an account exactly when it has a colon, the text before
      the first colon is the username with whitespace around it, and the text
      after it is the password with whitespace around it. */
  lemma ParseSegmentEntry(raw: string, user: string, pass: string)
    ensures ParseSegment(raw) == Entry(user, pass) <==>
            && ':' in raw
            && IsCredential(user, pass)
            && Pads(SplitAtFirst(raw, ':')[0], user)
            && Pads(SplitAtFirst(raw, ':')[1], pass)
  {
    TrimSpaceKeeps(raw, ':');
    if ':' in raw {
      var q := SplitAtFirst(raw, ':');
      SplitTrimmed(raw);
      TrimSpaceIs(q[0], user);
      TrimSpaceIs(q[1], pass);
    }
  }

  /** Formatting an account as `user:pass`, with any whitespace around either
      half, parses back to that account; the password may contain colons. */
  lemma ParseSegmentPadded(a: string, user: string, b: string, c: string, pass: string, d: string)
    requires AllSpace(a) && AllSpace(b) && AllSpace(c) && AllSpace(d)
    requires IsCredential(user, pass)
    ensures ParseSegment(a + user + b + ":" + c + pass + d) == Entry(user, pass)
  {
    var head, tail := a + user + b, c + pass + d;
    var raw := a + user + b + ":" + c + pass + d;
    assert raw == head + [':'] + tail;
    assert ':' !in head by {
      assert forall k :: 0 <= k < |a| ==> a[k] != ':';
      assert forall k :: 0 <= k < |b| ==> b[k] != ':';
    }
    SplitAtFirstOf(head, tail, ':');
    assert head[|a|..|a| + |user|] == user;
    assert head[|a| + |user|..] == b;
    assert PadsAt(head, |a|, user);
    assert tail[|c|..|c| + |pass|] == pass;
    assert tail[|c| + |pass|..] == d;
    assert PadsAt(tail, |c|, pass);
    ParseSegmentEntry(raw, user, pass);
  }

  /** The plain `user:pass` form. */
  lemma ParseSegmentOf(user: string, pass: string)
    requires IsCredential(user, pass)
    ensures ParseSegment(user + ":" + pass) == Entry(user, pass)
  {
    assert [] + user + [] + ":" + [] + pass + [] == user + ":" + pass;
    ParseSegmentPadded([], user, [], [], pass, []);
  }

  // ---------------------------------------------------------------------
  // The loop over segments

  /** Segment `i` gives an account for `user`. */
  predicate EntryFor(cs: seq<Segment>, i: int, user: string) {
    0 <= i < |cs| && cs[i].Entry? && cs[i].user == user
  }

  /** The loop completes exactly when no segment is bad. */
  lemma {:induction false} AddSegmentsSucceeds(cs: seq<Segment>, from: nat, acc: Store)
    requires from <= |cs|
    ensures AddSegments(cs, from, acc).Success? <==> forall j :: from <= j < |cs| ==> !cs[j].Bad?
    decreases |cs| - from
  {
    if from < |cs| {
      match cs[from]
      case Blank => AddSegmentsSucceeds(cs, from + 1, acc);
      case Bad(e) =>
      case Entry(u, p) => AddSegmentsSucceeds(cs, from + 1, acc[u := p]);
    }
  }

  /** The loop stops at the first bad segment and reports it. */
  lemma {:induction false} AddSegmentsFirstError(cs: seq<Segment>, from: nat, acc: Store, i: nat)
    requires from <= i < |cs|
    requires cs[i].Bad?
    requires forall j :: from <= j < i ==> !cs[j].Bad?
    ensures AddSegments(cs, from, acc) == Failure(cs[i].err)
    decreases i - from
  {
    if from < i {
      match cs[from]
      case Blank => AddSegmentsFirstError(cs, from + 1, acc, i);
      case Entry(u, p) => AddSegmentsFirstError(cs, from + 1, acc[u := p], i);
    }
  }

  /** A username ends up in the map iff it was there already or some segment
      from `from` on gives an account for it. */
  lemma {:induction false} AddSegmentsKeys(cs: seq<Segment>, from: nat, acc: Store, user: string)
    requires from <= |cs|
    requires AddSegments(cs, from, acc).Success?
    ensures user in AddSegments(cs, from, acc).value <==>
            user in acc || exists i :: from <= i && EntryFor(cs, i, user)
    decreases |cs| - from
  {
    if from < |cs| {
      match cs[from]
      case Blank =>
        AddSegmentsKeys(cs, from + 1, acc, user);
        if exists i :: from <= i && EntryFor(cs, i, user) {
          var i :| from <= i && EntryFor(cs, i, user);
          assert from + 1 <= i;
        }
      case Entry(u, p) =>
        AddSegmentsKeys(cs, from + 1, acc[u := p], user);
        if user == u {
          assert EntryFor(cs, from, user);
        }
        if exists i :: from <= i && EntryFor(cs, i, user) {
          var i :| from <= i && EntryFor(cs, i, user);
          if i != from {
            assert from + 1 <= i;
          }
        }
    }
  }

  /** A username no later segment mentions keeps the password it had. */
  lemma {:induction false} AddSegmentsKeeps(cs: seq<Segment>, from: nat, acc: Store, user: string)
    requires from <= |cs|
    requires AddSegments(cs, from, acc).Success?
    requires user in acc
    requires forall j :: from <= j < |cs| ==> !EntryFor(cs, j, user)
    ensures AddSegments(cs, from, acc).value[user] == acc[user]
    decreases |cs| - from
  {
    if from < |cs| {
      assert !EntryFor(cs, from, user);
      match cs[from]
      case Blank => AddSegmentsKeeps(cs, from + 1, acc, user);
      case Entry(u, p) => AddSegmentsKeeps(cs, from + 1, acc[u := p], user);
    }
  }

  /** The last segment that names a username decides its password. */
  lemma {:induction false} AddSegmentsLastWins(cs: seq<Segment>, from: nat, acc: Store, user: string, i: nat)
    requires EntryFor(cs, i, user)
    requires from <= i
    requires AddSegments(cs, from, acc).Success?
    requires forall j :: i < j < |cs| ==> !EntryFor(cs, j, user)
    ensures user in AddSegments(cs, from, acc).value
    ensures AddSegments(cs, from, acc).value[user] == cs[i].pass
    decreases |cs| - from
  {
    match cs[from]
    case Blank =>
      AddSegmentsLastWins(cs, from + 1, acc, user, i);
    case Entry(u, p) =>
      if from == i {
        AddSegmentsKeeps(cs, from + 1, acc[u := p], user);
      } else {
        AddSegmentsLastWins(cs, from + 1, acc[u := p], user, i);
      }
  }

  // ---------------------------------------------------------------------
  // The whole configuration string

  /** A non-empty configuration is accepted iff no segment is bad and at
      least one segment gives an account. */
  lemma ParseUsersAccepts(userStr: string)
    requires userStr != ""
    ensures var cs := SegmentsOf(userStr);
            ParseUsers(userStr).Success? <==>
            (forall j :: 0 <= j < |cs| ==> !cs[j].Bad?) && (exists i, u :: EntryFor(cs, i, u))
  {
    var cs := SegmentsOf(userStr);
    AddSegmentsSucceeds(cs, 0, map[]);
    var r := AddSegments(cs, 0, map[]);
    if r.Success? {
      if exists i, u :: EntryFor(cs, i, u) {
        var i, u :| EntryFor(cs, i, u);
        AddSegmentsKeys(cs, 0, map[], u);
      } else if |r.value| > 0 {
        var u :| u in r.value;
        AddSegmentsKeys(cs, 0, map[], u);
      }
    }
  }

  /** The first bad segment is the error reported. */
  lemma ParseUsersFirstError(userStr: string, i: nat)
    requires userStr != ""
    requires i < |SegmentsOf(userStr)|
    requires SegmentsOf(userStr)[i].Bad?
    requires forall j :: 0 <= j < i ==> !SegmentsOf(userStr)[j].Bad?
    ensures ParseUsers(userStr) == Failure(SegmentsOf(userStr)[i].err)
  {
    AddSegmentsFirstError(SegmentsOf(userStr), 0, map[], i);
  }

  /** The configured usernames are exactly those some segment names. */
  lemma ParseUsersKeys(userStr: string, user: string)
    requires userStr != ""
    requires ParseUsers(userStr).Success?
    ensures user in ParseUsers(userStr).value <==> exists i :: EntryFor(SegmentsOf(userStr), i, user)
  {
    AddSegmentsKeys(SegmentsOf(userStr), 0, map[], user);
  }

  /** A later duplicate username overwrites an earlier one. */
  lemma ParseUsersLastWins(userStr: string, user: string, i: nat)
    requires userStr != ""
    requires ParseUsers(userStr).Success?
    requires EntryFor(SegmentsOf(userStr), i, user)
    requires forall j :: i < j < |SegmentsOf(userStr)| ==> !EntryFor(SegmentsOf(userStr), j, user)
    ensures user in ParseUsers(userStr).value
    ensures ParseUsers(userStr).value[user] == SegmentsOf(userStr)[i].pass
  {
    AddSegmentsLastWins(SegmentsOf(userStr), 0, map[], user, i);
  }

  /** Only commas and whitespace. */
  predicate CommasAndSpace(s: string) {
    forall k :: 0 <= k < |s| ==> s[k] == ',' || IsSpace(s[k])
  }

  lemma CommasAndSpaceAppend(x: string, y: string)
    ensures CommasAndSpace(x + y) <==> CommasAndSpace(x) && CommasAndSpace(y)
  {
    if CommasAndSpace(x + y) {
      assert forall k :: 0 <= k < |x| ==> (x + y)[k] == x[k];
      assert forall k :: 0 <= k < |y| ==> (x + y)[|x| + k] == y[k];
    }
  }

  lemma CommasAndSpaceNoComma(p: string)
    requires ',' !in p
    ensures CommasAndSpace(p) <==> AllSpace(p)
  {
    if CommasAndSpace(p) {
      forall k | 0 <= k < |p| ensures IsSpace(p[k]) {
        assert p[k] != ',';
      }
    }
  }

  /** The pieces between commas are all blank iff the joined text holds
      nothing but commas and whitespace. */
  lemma {:induction false} JoinBlank(parts: seq<string>)
    requires forall i :: 0 <= i < |parts| ==> ',' !in parts[i]
    ensures CommasAndSpace(Join(parts, ',')) <==> forall i :: 0 <= i < |parts| ==> AllSpace(parts[i])
    decreases |parts|
  {
    if |parts| == 1 {
      CommasAndSpaceNoComma(parts[0]);
    } else if |parts| > 1 {
      var p, rest := parts[0], parts[1..];
      JoinBlank(rest);
      CommasAndSpaceAppend(p + [','], Join(rest, ','));
      CommasAndSpaceAppend(p, [',']);
      CommasAndSpaceNoComma(p);
      assert forall i :: 1 <= i < |parts| ==> parts[i] == rest[i - 1];
    }
  }

  /** Every segment is blank iff the string holds only commas and whitespace. */
  lemma SegmentsAllBlank(userStr: string)
    ensures CommasAndSpace(userStr) <==> forall i :: 0 <= i < |SegmentsOf(userStr)| ==> SegmentsOf(userStr)[i] == Blank
  {
    var segs := Split(userStr, ',');
    JoinBlank(segs);
    forall i | 0 <= i < |segs| ensures SegmentsOf(userStr)[i] == Blank <==> AllSpace(segs[i]) {
    }
  }

  /** A non-empty configuration made only of commas and whitespace is
      rejected for configuring nobody, and that is the only way to get that
      error. */
  lemma ParseUsersNoValidUsers(userStr: string)
    ensures ParseUsers(userStr) == Failure(NoValidUsers) <==>
            userStr != "" && CommasAndSpace(userStr)
  {
    if userStr != "" {
      var cs := SegmentsOf(userStr);
      SegmentsAllBlank(userStr);
      ParseUsersAccepts(userStr);
      AddSegmentsSucceeds(cs, 0, map[]);
      var r := AddSegments(cs, 0, map[]);
      if CommasAndSpace(userStr) {
        assert forall i, u :: !EntryFor(cs, i, u);
      } else if ParseUsers(userStr) == Failure(NoValidUsers) {
        if r.Failure? {
          assert false;
        }
        forall i | 0 <= i < |cs| ensures cs[i] == Blank {
          if cs[i].Entry? {
            assert EntryFor(cs, i, cs[i].user);
          }
        }
      }
    }
  }

  /** A blank segment at the end changes nothing. */
  lemma {:induction false} AddSegmentsBlankEnd(cs: seq<Segment>, from: nat, acc: Store)
    requires from <= |cs|
    ensures AddSegments(cs + [Blank], from, acc) == AddSegments(cs, from, acc)
    decreases |cs| - from
  {
    var all := cs + [Blank];
    if from == |cs| {
      assert all[from] == Blank;
    } else {
      assert all[from] == cs[from];
      match cs[from]
      case Blank => AddSegmentsBlankEnd(cs, from + 1, acc);
      case Bad(e) =>
      case Entry(u, p) => AddSegmentsBlankEnd(cs, from + 1, acc[u := p]);
    }
  }

  lemma ClassifyAppend(segs: seq<string>, last: string)
    ensures Classify(segs + [last]) == Classify(segs) + [ParseSegment(last)]
  {
    var a, b := Classify(segs + [last]), Classify(segs) + [ParseSegment(last)];
    assert |a| == |b|;
    forall i | 0 <= i < |a| ensures a[i] == b[i] {
      if i < |segs| {
        assert (segs + [last])[i] == segs[i];
      } else {
        assert (segs + [last])[i] == last;
      }
    }
  }

  /** Blank segments are skipped: a trailing `,` followed by whitespace, as
      in `a:1, `, parses like the configuration without it. */
  lemma ParseUsersTrailingBlank(userStr: string, blank: string)
    requires userStr != ""
    requires AllSpace(blank) && ',' !in blank
    ensures ParseUsers(userStr + "," + blank) == ParseUsers(userStr)
  {
    var segs := Split(userStr, ',');
    assert SegmentsOf(userStr + "," + blank) == SegmentsOf(userStr) + [Blank] by {
      assert userStr + "," + blank == userStr + [','] + blank;
      SplitAppend(userStr, blank, ',');
      ClassifyAppend(segs, blank);
    }
    AddSegmentsBlankEnd(SegmentsOf(userStr), 0, map[]);
  }

  // ---------------------------------------------------------------------
  // Round trip with a well-formed configuration string

  /** An account that can be written in the configuration string. */
  predicate Writable(e: (string, string)) {
    IsCredential(e.0, e.1) && ',' !in e.0 && ',' !in e.1
  }

  function FormatSegments(es: seq<(string, string)>): (segs: seq<string>)
    ensures |segs| == |es|
    ensures forall i :: 0 <= i < |es| ==> segs[i] == es[i].0 + ":" + es[i].1
  {
    if es == [] then [] else [es[0].0 + ":" + es[0].1] + FormatSegments(es[1..])
  }

  /** `user1:pass1,user2:pass2,...` */
  function FormatUsers(es: seq<(string, string)>): string {
    Join(FormatSegments(es), ',')
  }

  /** The reference store of a list of accounts: a later entry overrides
      an earlier one for the same username. */
  function StoreOf(es: seq<(string, string)>): Store {
    if es == [] then map[] else map[es[0].0 := es[0].1] + StoreOf(es[1..])
  }

  /** Entry `i` is the last one for `user`. */
  predicate LastEntry(es: seq<(string, string)>, i: int, user: string) {
    0 <= i < |es| && es[i].0 == user && forall j :: i < j < |es| ==> es[j].0 != user
  }

  /** The reference store holds a username iff some entry names it. */
  lemma {:induction false} StoreOfKeys(es: seq<(string, string)>, user: string)
    ensures user in StoreOf(es) <==> exists i :: 0 <= i < |es| && es[i].0 == user
    decreases |es|
  {
    if es != [] {
      StoreOfKeys(es[1..], user);
      if exists i :: 0 <= i < |es| && es[i].0 == user {
        var i :| 0 <= i < |es| && es[i].0 == user;
        if i > 0 {
          assert es[1..][i - 1].0 == user;
        }
      }
      if exists i :: 0 <= i < |es[1..]| && es[1..][i].0 == user {
        var i :| 0 <= i < |es[1..]| && es[1..][i].0 == user;
        assert es[i + 1].0 == user;
      }
    }
  }

  /** The index of the last entry for a username that has one. */
  lemma {:induction false} LastIndexFor(es: seq<(string, string)>, user: string) returns (i: nat)
    requires exists k :: 0 <= k < |es| && es[k].0 == user
    ensures LastEntry(es, i, user)
    ensures forall k :: LastEntry(es, k, user) ==> k == i
    decreases |es|
  {
    var last := es[|es| - 1];
    if last.0 == user {
      i := |es| - 1;
    } else {
      var init := es[..|es| - 1];
      var k :| 0 <= k < |es| && es[k].0 == user;
      assert init[k].0 == user;
      i := LastIndexFor(init, user);
    }
  }

  /** The reference store gives a username the password of its last entry. */
  lemma {:induction false} StoreOfLast(es: seq<(string, string)>, i: nat, user: string)
    requires LastEntry(es, i, user)
    ensures user in StoreOf(es) && StoreOf(es)[user] == es[i].1
    decreases i
  {
    if i == 0 {
      forall k | 0 <= k < |es[1..]| ensures es[1..][k].0 != user {
        assert es[1..][k] == es[k + 1];
      }
      StoreOfKeys(es[1..], user);
    } else {
      assert LastEntry(es[1..], i - 1, user) by {
        forall j | i - 1 < j < |es[1..]| ensures es[1..][j].0 != user {
          assert es[1..][j] == es[j + 1];
        }
      }
      StoreOfLast(es[1..], i - 1, user);
    }
  }

  lemma UpdateThenUnion(acc: Store, u: string, p: string, m: Store)
    ensures acc[u := p] + m == acc + (map[u := p] + m)
  {
  }

  lemma {:induction false} AddFormatted(es: seq<(string, string)>, cs: seq<Segment>, from: nat, acc: Store)
    requires from <= |es| == |cs|
    requires forall i :: 0 <= i < |es| ==> cs[i] == Entry(es[i].0, es[i].1)
    ensures AddSegments(cs, from, acc) == Success(acc + StoreOf(es[from..]))
    decreases |es| - from
  {
    if from == |es| {
      assert es[from..] == [];
      assert acc + map[] == acc;
    } else {
      var (u, p) := es[from];
      assert es[from..][1..] == es[from + 1..];
      assert StoreOf(es[from..]) == map[u := p] + StoreOf(es[from + 1..]);
      UpdateThenUnion(acc, u, p, StoreOf(es[from + 1..]));
      AddFormatted(es, cs, from + 1, acc[u := p]);
    }
  }

  /** The formatted segments each give their account. */
  lemma ClassifyFormatted(es: seq<(string, string)>)
    requires forall i :: 0 <= i < |es| ==> Writable(es[i])
    ensures var cs := Classify(FormatSegments(es));
            forall i :: 0 <= i < |es| ==> cs[i] == Entry(es[i].0, es[i].1)
  {
    var segs := FormatSegments(es);
    forall i | 0 <= i < |es| ensures ParseSegment(segs[i]) == Entry(es[i].0, es[i].1) {
      ParseSegmentOf(es[i].0, es[i].1);
    }
  }

  /** The formatted string is non-empty and splits back into its segments. */
  lemma SplitFormatted(es: seq<(string, string)>)
    requires |es| > 0
    requires forall i :: 0 <= i < |es| ==> Writable(es[i])
    ensures FormatUsers(es) != ""
    ensures Split(FormatUsers(es), ',') == FormatSegments(es)
  {
    var segs := FormatSegments(es);
    forall i | 0 <= i < |segs| ensures ',' !in segs[i] {
      assert segs[i] == es[i].0 + [':'] + es[i].1;
    }
    SplitJoin(segs, ',');
    if |segs| == 1 {
      assert FormatUsers(es) == segs[0];
    } else {
      assert FormatUsers(es) == segs[0] + [','] + Join(segs[1..], ',');
    }
  }

  /** The loop over the accounts' segments builds the reference store. */
  lemma AddFormattedStore(es: seq<(string, string)>, cs: seq<Segment>)
    requires |es| == |cs| > 0
    requires forall i :: 0 <= i < |es| ==> cs[i] == Entry(es[i].0, es[i].1)
    ensures AddSegments(cs, 0, map[]) == Success(StoreOf(es))
    ensures |StoreOf(es)| > 0
  {
    AddFormatted(es, cs, 0, map[]);
    assert es[0..] == es;
    assert map[] + StoreOf(es) == StoreOf(es);
    assert es[0].0 in StoreOf(es);
  }

  /** Writing accounts as `user1:pass1,user2:pass2` and parsing the result
      gives back exactly those accounts, the last one winning per username. */
  lemma ParseUsersFormat(es: seq<(string, string)>)
    requires |es| > 0
    requires forall i :: 0 <= i < |es| ==> Writable(es[i])
    ensures ParseUsers(FormatUsers(es)) == Success(StoreOf(es))
  {
    SplitFormatted(es);
    ClassifyFormatted(es);
    AddFormattedStore(es, Classify(FormatSegments(es)));
  }

  // ---------------------------------------------------------------------
  // Example configurations, for every choice of names

  /** A single account, whose password may itself contain colons:
      `alice:pass:word` gives `alice` the password `pass:word`. */
  lemma ParseUsersSingle(user: string, pass: string)
    requires Writable((user, pass))
    ensures ParseUsers(user + ":" + pass) == Success(map[user := pass])
  {
    var es := [(user, pass)];
    assert FormatUsers(es) == user + ":" + pass;
    assert StoreOf(es) == map[user := pass];
    ParseUsersFormat(es);
  }

  /** `a:1,a:2` configures `a` with password `2`. */
  lemma ParseUsersDuplicate(user: string, first: string, second: string)
    requires Writable((user, first)) && Writable((user, second))
    ensures ParseUsers(user + ":" + first + "," + user + ":" + second) == Success(map[user := second])
  {
    var es := [(user, first), (user, second)];
    var segs := FormatSegments(es);
    assert segs[1..] == [segs[1]];
    assert Join(segs[1..], ',') == segs[1];
    assert FormatUsers(es) == segs[0] + [','] + segs[1];
    assert FormatUsers(es) == user + ":" + first + "," + user + ":" + second;
    assert es[1..] == [(user, second)] && es[1..][1..] == [];
    assert StoreOf(es[1..]) == map[user := second] + map[];
    assert StoreOf(es) == map[user := second];
    ParseUsersFormat(es);
  }

  /** For a segment with a colon, what the loop body does comes down to the
      trimmed text on either side of the first colon. */
  lemma ParseSegmentColon(raw: string)
    requires ':' in raw
    ensures var q := SplitAtFirst(raw, ':');
            var u, p := TrimSpace(q[0]), TrimSpace(q[1]);
            ParseSegment(raw) == if u == "" || p == "" then Bad(EmptyCredential(TrimSpace(raw))) else Entry(u, p)
  {
    TrimSpaceKeeps(raw, ':');
    SplitTrimmed(raw);
  }

  /** A segment is rejected for a blank username or password iff it has a
      colon and the text on one side of the first colon is blank. */
  lemma ParseSegmentEmptyCredential(raw: string)
    ensures (ParseSegment(raw).Bad? && ParseSegment(raw).err.EmptyCredential?) <==>
            ':' in raw && (AllSpace(SplitAtFirst(raw, ':')[0]) || AllSpace(SplitAtFirst(raw, ':')[1]))
  {
    if ':' in raw {
      ParseSegmentColon(raw);
    }
  }

  lemma SplitTwo(x: string, y: string)
    requires ',' !in x && ',' !in y
    ensures Split(x + "," + y, ',') == [x, y]
  {
    assert Join([x, y], ',') == x + "," + y by {
      assert [x, y][1..] == [y];
    }
    SplitJoin([x, y], ',');
  }

  lemma ClassifyTwo(a: string, b: string)
    ensures Classify([a, b]) == [ParseSegment(a), ParseSegment(b)]
  {
    var cs := Classify([a, b]);
    assert |cs| == 2;
    assert cs[0] == ParseSegment(a);
    assert cs[1] == ParseSegment(b);
  }

  lemma SegmentsOfTwo(user: string, pass: string, other: string)
    requires Writable((user, pass))
    requires ',' !in other
    ensures SegmentsOf(user + ":" + pass + "," + other) == [Entry(user, pass), ParseSegment(other)]
  {
    var first := user + ":" + pass;
    var s := user + ":" + pass + "," + other;
    assert s == first + "," + other;
    assert ',' !in first by {
      assert first == user + [':'] + pass;
    }
    SplitTwo(first, other);
    assert SegmentsOf(s) == Classify([first, other]);
    ClassifyTwo(first, other);
    ParseSegmentOf(user, pass);
  }

  /** A non-blank segment without a colon is malformed. */
  lemma ParseSegmentMalformed(raw: string)
    requires ':' !in raw && !AllSpace(raw)
    ensures ParseSegment(raw) == Bad(MalformedSegment(TrimSpace(raw)))
  {
  }

  /** `a:1,bad` fails on `bad`, which has no colon. */
  lemma ParseUsersMissingColon(user: string, pass: string, bad: string)
    requires Writable((user, pass))
    requires ',' !in bad && ':' !in bad && !AllSpace(bad)
    ensures ParseUsers(user + ":" + pass + "," + bad) == Failure(MalformedSegment(TrimSpace(bad)))
  {
    var s := user + ":" + pass + "," + bad;
    var e := MalformedSegment(TrimSpace(bad));
    var cs := SegmentsOf(s);
    assert cs == [Entry(user, pass), Bad(e)] by {
      SegmentsOfTwo(user, pass, bad);
      ParseSegmentMalformed(bad);
    }
    AddSegmentsFirstError(cs, 0, map[], 1);
  }

  /** `:1` fails: the username before the colon is blank. */
  lemma ParseUsersEmptyUsername(pass: string)
    requires ',' !in pass
    ensures ParseUsers(":" + pass) == Failure(EmptyCredential(TrimSpace(":" + pass)))
  {
    var s := ":" + pass;
    assert s == "" + [':'] + pass;
    SplitJoin([s], ',');
    SplitAtFirstOf("", pass, ':');
    ParseSegmentEmptyCredential(s);
    ParseUsersFirstError(s, 0);
  }

  /** `user:` fails: the password after the colon is blank. */
  lemma ParseUsersEmptyPassword(user: string, blank: string)
    requires ',' !in user && ':' !in user && AllSpace(blank)
    ensures ParseUsers(user + ":" + blank) == Failure(EmptyCredential(TrimSpace(user + ":" + blank)))
  {
    var s := user + ":" + blank;
    assert s == user + [':'] + blank;
    assert ',' !in s by {
      assert forall k :: 0 <= k < |blank| ==> blank[k] != ',';
    }
    SplitJoin([s], ',');
    SplitAtFirstOf(user, blank, ':');
    ParseSegmentEmptyCredential(s);
    ParseUsersFirstError(s, 0);
  }
}
