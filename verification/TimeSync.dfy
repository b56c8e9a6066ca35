/**
 The time settings: a stack of NTP servers kept as one space-separated value of a configuration file, and a
 patch of settings applied key by key in whatever order Go visits the map.
 */
module TimeSync {
  import opened Texts
  import opened Wrappers

  /** The configuration file: not loadable, without a `Time` section, or with the `NTP` key of that section. */
  datatype TimeConf = Unreadable | NoTimeSection | TimeSection(ntp: Option<string>)

  // ---------------------------------------------------------------- the value of the key

  predicate IsSpace(c: char) {
    var n := c as int;
    || 9 <= n <= 13 || n == 0x20 || n == 0x85 || n == 0xA0 || n == 0x1680 || 0x2000 <= n <= 0x200A
    || n == 0x2028 || n == 0x2029 || n == 0x202F || n == 0x205F || n == 0x3000
  }

  function TrimLeft(s: string): string {
    if s != [] && IsSpace(s[0]) then TrimLeft(s[1..]) else s
  }

  function TrimRight(s: string): string {
    if s != [] && IsSpace(s[|s| - 1]) then TrimRight(s[..|s| - 1]) else s
  }

  function TrimSpace(s: string): string {
    TrimRight(TrimLeft(s))
  }

  function TrimAll(parts: seq<string>): (r: seq<string>)
    ensures |r| == |parts| && forall i :: 0 <= i < |r| ==> r[i] == TrimSpace(parts[i])
  {
    seq(|parts|, i requires 0 <= i < |parts| => TrimSpace(parts[i]))
  }

  /** `Strings(" ")`: no pieces for an empty value, else the pieces between spaces, each trimmed. */
  function Strings(value: string): seq<string> {
    if value == "" then [] else TrimAll(Split(value, ' '))
  }

  function Servers(ntp: Option<string>): seq<string> {
    match ntp
    case None => []
    case Some(value) => Strings(value)
  }

  // ---------------------------------------------------------------- the operations on values

  /** A write that returns before it saves. */
  predicate IsNoOp(ntp: Option<string>, server: string) {
    match ntp
    case None => server == ""
    case Some(value) => server != "" && Strings(value) != [] && Strings(value)[0] == server
  }

  function Written(ntp: Option<string>, server: string): Option<string> {
    match ntp
    case None => if server == "" then None else Some(server)
    case Some(value) =>
      var servers := Strings(value);
      if server == "" then
        var rest := if servers != [] then servers[1..] else servers;
        if rest == [] then None else Some(Join(rest, ' '))
      else if servers != [] && servers[0] == server then ntp
      else Some(Join([server] + servers, ' '))
  }

  /** The file after a write, and whether the write succeeded; `saves` says whether the file can be written. */
  function AfterWrite(conf: TimeConf, server: string, saves: bool): (TimeConf, bool) {
    match conf
    case Unreadable => (conf, false)
    case NoTimeSection => (conf, false)
    case TimeSection(ntp) =>
      if IsNoOp(ntp, server) then (conf, true)
      else if saves then (TimeSection(Written(ntp, server)), true)
      else (conf, false)
  }

  function Read(conf: TimeConf): string {
    match conf
    case Unreadable => ""
    case NoTimeSection => ""
    case TimeSection(ntp) => if Servers(ntp) == [] then "" else Servers(ntp)[0]
  }

  class TimesyncdConf {
    var conf: TimeConf

    constructor (initial: TimeConf)
      ensures conf == initial
    {
      conf := initial;
    }

    method WriteNTPServer(ntpServer: string, saves: bool) returns (ok: bool)
      modifies this
      ensures (conf, ok) == AfterWrite(old(conf), ntpServer, saves)
    {
      if !conf.TimeSection? { return false; }
      var key := conf.ntp;
      if key.Some? {
        var servers := Strings(key.value);
        if ntpServer == "" {
          if |servers| > 0 {
            servers := servers[1..];
          }
          if |servers| == 0 {
            key := None;
          } else {
            key := Some(Join(servers, ' '));
          }
        } else {
          if |servers| > 0 && servers[0] == ntpServer { return true; }
          servers := [ntpServer] + servers;
          key := Some(Join(servers, ' '));
        }
      } else {
        if ntpServer == "" { return true; }
        key := Some(ntpServer);
      }
      if saves {
        conf := TimeSection(key);
      }
      return saves;
    }

    method ReadNTPServer() returns (server: string)
      ensures server == Read(conf)
      ensures conf.TimeSection? && Servers(conf.ntp) != [] ==> server == Servers(conf.ntp)[0]
      ensures !conf.TimeSection? || Servers(conf.ntp) == [] ==> server == ""
    {
      if !conf.TimeSection? || conf.ntp.None? { return ""; }
      var servers := Strings(conf.ntp.value);
      if |servers| == 0 { return ""; }
      return servers[0];
    }
  }

  // ---------------------------------------------------------------- trimming

  lemma {:induction false} TrimLeftFacts(s: string, sep: char)
    ensures Free(s, sep) ==> Free(TrimLeft(s), sep)
    ensures TrimLeft(s) != [] ==> !IsSpace(TrimLeft(s)[0])
  {
    if s != [] && IsSpace(s[0]) { TrimLeftFacts(s[1..], sep); }
  }

  lemma {:induction false} TrimRightFacts(s: string, sep: char)
    ensures Free(s, sep) ==> Free(TrimRight(s), sep)
    ensures TrimRight(s) <= s
    ensures TrimRight(s) != [] ==> !IsSpace(TrimRight(s)[|TrimRight(s)| - 1])
  {
    if s != [] && IsSpace(s[|s| - 1]) { TrimRightFacts(s[..|s| - 1], sep); }
  }

  lemma TrimSpaceFacts(s: string, sep: char)
    ensures Free(s, sep) ==> Free(TrimSpace(s), sep)
    ensures TrimSpace(TrimSpace(s)) == TrimSpace(s)
  {
    TrimLeftFacts(s, sep);
    TrimRightFacts(TrimLeft(s), sep);
  }

  lemma {:induction false} TrimLeftCuts(s: string) returns (a: nat)
    ensures a <= |s| && TrimLeft(s) == s[a..] && forall i :: 0 <= i < a ==> IsSpace(s[i])
  {
    a := 0;
    if s != [] && IsSpace(s[0]) {
      a := TrimLeftCuts(s[1..]);
      assert forall i :: 0 < i <= a ==> s[i] == s[1..][i - 1];
      a := a + 1;
    }
  }

  lemma {:induction false} TrimRightCuts(s: string) returns (b: nat)
    ensures b <= |s| && TrimRight(s) == s[..b] && forall i :: b <= i < |s| ==> IsSpace(s[i])
  {
    b := |s|;
    if s != [] && IsSpace(s[|s| - 1]) {
      b := TrimRightCuts(s[..|s| - 1]);
      assert forall i :: b <= i < |s| - 1 ==> s[i] == s[..|s| - 1][i];
    }
  }

  /** Trimming cuts white space off both ends, and all of it: nothing else is lost, and no end is white space. */
  lemma TrimSpaceIs(s: string) returns (a: nat, b: nat)
    ensures a <= b <= |s| && TrimSpace(s) == s[a..b]
    ensures forall i :: 0 <= i < a || b <= i < |s| ==> IsSpace(s[i])
    ensures a < b ==> !IsSpace(s[a]) && !IsSpace(s[b - 1])
  {
    a := TrimLeftCuts(s);
    b := TrimRightCuts(TrimLeft(s));
    TrimLeftFacts(s, ' ');
    TrimRightFacts(TrimLeft(s), ' ');
    assert forall i :: a <= i < |s| ==> s[i] == s[a..][i - a];
    b := a + b;
    assert s[a..b] == s[a..][..b - a];
  }

  /** Pieces as `Strings` leaves them: trimmed, and free of spaces. */
  ghost predicate AreTrimmed(parts: seq<string>) {
    forall i :: 0 <= i < |parts| ==> Free(parts[i], ' ') && TrimSpace(parts[i]) == parts[i]
  }

  lemma StringsAreTrimmed(value: string)
    ensures AreTrimmed(Strings(value))
  {
    var parts := Split(value, ' ');
    forall i | 0 <= i < |parts|
      ensures Free(TrimSpace(parts[i]), ' ') && TrimSpace(TrimSpace(parts[i])) == TrimSpace(parts[i])
    {
      PiecesAreFree(value, ' ', i);
      TrimSpaceFacts(parts[i], ' ');
    }
  }

  /** Only a single empty piece is lost when trimmed pieces are joined and read again. */
  lemma StringsOfJoin(parts: seq<string>)
    requires AreTrimmed(parts)
    ensures Strings(Join(parts, ' ')) == if parts == [""] then [] else parts
  {
    if parts != [] && parts != [""] {
      SplitJoin(parts, ' ');
      assert TrimAll(parts) == parts;
    }
  }

  // ---------------------------------------------------------------- the stack of servers

  /**
   A write is a push: whatever text was stored, writing a non-empty text puts its pieces in front of the servers,
   unless it is a single word that heads the list already, when nothing changes.
   */
  lemma WriteIsPush(ntp: Option<string>, server: string)
    requires server != ""
    ensures Servers(Written(ntp, server)) ==
      if Servers(ntp) != [] && Servers(ntp)[0] == server then Servers(ntp) else Strings(server) + Servers(ntp)
  {
    var servers := Servers(ntp);
    if servers != [] && servers[0] != server {
      StringsAreTrimmed(ntp.value);
      StringsOfPush(server, servers);
    }
  }

  lemma StringsOfPush(server: string, servers: seq<string>)
    requires server != "" && servers != [] && AreTrimmed(servers)
    ensures Strings(Join([server] + servers, ' ')) == Strings(server) + servers
  {
    assert ([server] + servers)[1..] == servers;
    SplitJoin(servers, ' ');
    SplitConcat(server, Join(servers, ' '), ' ');
    var pieces := Split(server, ' ') + servers;
    assert Strings(Join([server] + servers, ' ')) == TrimAll(pieces);
    assert TrimAll(pieces) == TrimAll(Split(server, ' ')) + servers;
  }

  /** Writing the empty text is a pop; the key goes with the last server. */
  lemma WriteNothingIsPop(ntp: Option<string>)
    ensures var servers, after := Servers(ntp), Written(ntp, "");
      && (after.None? <==> |servers| <= 1)
      && Servers(after) == (if |servers| <= 1 || servers[1..] == [""] then [] else servers[1..])
  {
    if ntp.Some? && |Strings(ntp.value)| > 1 {
      StringsAreTrimmed(ntp.value);
      StringsOfJoin(Strings(ntp.value)[1..]);
    }
  }

  /** A single server name: no white space at its ends, no space inside. */
  ghost predicate IsServerName(w: string) {
    w != "" && Free(w, ' ') && TrimSpace(w) == w
  }

  /** A server just written is the one that is read. */
  lemma ReadAfterWrite(ntp: Option<string>, w: string)
    requires IsServerName(w)
    ensures AfterWrite(TimeSection(ntp), w, true).1 && Read(AfterWrite(TimeSection(ntp), w, true).0) == w
  {
    WriteIsPush(ntp, w);
    SplitFree(w, ' ');
  }

  /** Pushing a server and popping restores the list exactly when that server did not head it already. */
  lemma PushThenPop(ntp: Option<string>, w: string)
    requires IsServerName(w)
    ensures Servers(Written(Written(ntp, w), "")) == Servers(ntp) <==>
      !(Servers(ntp) != [] && Servers(ntp)[0] == w) && Servers(ntp) != [""]
  {
    WriteIsPush(ntp, w);
    SplitFree(w, ' ');
    WriteNothingIsPop(Written(ntp, w));
    assert ([w] + Servers(ntp))[1..] == Servers(ntp);
  }

  /**
   When a write succeeds: the file has a `Time` section, and either it can be saved or there is nothing to save, that
   is, nothing is popped from a missing key or the text heads the list already. A failed write changes nothing.
   */
  lemma WriteSucceedsIff(conf: TimeConf, server: string, saves: bool)
    ensures var (after, ok) := AfterWrite(conf, server, saves);
      && (ok <==>
          && conf.TimeSection?
          && (|| saves
              || (server == "" && conf.ntp == None)
              || (server != "" && Servers(conf.ntp) != [] && Servers(conf.ntp)[0] == server)))
      && (!ok || !saves ==> after == conf)
      && (ok && saves ==> after.TimeSection? && Servers(after.ntp) == Servers(Written(conf.ntp, server)))
  {
  }

  /** What `unicode.IsSpace` calls white space, character by character. */
  lemma SpacesAre(c: char)
    ensures IsSpace(c) <==>
      || c == '\t' || c == '\n' || c == '\U{B}' || c == '\U{C}' || c == '\r' || c == ' '
      || c == '\U{85}' || c == '\U{A0}' || c == '\U{1680}' || '\U{2000}' <= c <= '\U{200A}'
      || c == '\U{2028}' || c == '\U{2029}' || c == '\U{202F}' || c == '\U{205F}' || c == '\U{3000}'
  {
  }

  ghost predicate NoAdjacentDuplicates(servers: seq<string>) {
    forall i :: 0 <= i < |servers| - 1 ==> servers[i] != servers[i + 1]
  }

  /** Writing single servers and popping never puts a server next to itself. */
  lemma NoDuplicatesAppear(ntp: Option<string>, server: string)
    requires server == "" || IsServerName(server)
    requires NoAdjacentDuplicates(Servers(ntp))
    ensures NoAdjacentDuplicates(Servers(Written(ntp, server)))
  {
    if server == "" {
      WriteNothingIsPop(ntp);
    } else {
      WriteIsPush(ntp, server);
      SplitFree(server, ' ');
    }
  }

  // ---------------------------------------------------------------- patches

  datatype Value = Flag(flag: bool) | Number(number: real) | Text(text: string) | Other

  datatype DBusCall = SetNTP(flag: bool) | SetTime(seconds: real) | SetTimezone(zone: string)

  /** Can the file be saved, can the system bus be reached, and does it accept a call? */
  datatype Environment = Environment(saves: bool, connects: bool, accepts: DBusCall -> bool)

  datatype Device = Device(conf: TimeConf, calls: seq<DBusCall>)

  type Patch = map<string, Value>

  function CallBus(d: Device, env: Environment, call: DBusCall): (Device, bool) {
    if !env.connects then (d, false) else (d.(calls := d.calls + [call]), env.accepts(call))
  }

  /** One key of the patch: the device after it, and the result if it makes `setTimeInfo` return. */
  function ApplyKey(d: Device, env: Environment, k: string, v: Value): (Device, Option<bool>) {
    if k == "ntp" then
      if !v.Flag? then (d, Some(false))
      else var (d', ok) := CallBus(d, env, SetNTP(v.flag)); (d', Some(ok))
    else if k == "ntpServer" then
      var (conf, ok) := AfterWrite(d.conf, if v.Text? then v.text else "", env.saves);
      (d.(conf := conf), if ok then None else Some(false))
    else if k == "dateTime" then
      if !v.Number? then (d, Some(false))
      else var (d', ok) := CallBus(d, env, SetTime(v.number)); (d', Some(ok))
    else if k == "timezone" then
      if !v.Text? then (d, Some(false))
      else var (d', ok) := CallBus(d, env, SetTimezone(v.text)); (d', Some(ok))
    else (d, None)
  }

  /** The patch applied in the order `keys`: the device afterwards, and whether all went well. */
  function ApplyPatch(d: Device, env: Environment, patch: Patch, keys: seq<string>): (Device, bool)
    requires forall k :: k in keys ==> k in patch
    decreases |keys|
  {
    if keys == [] then (d, true)
    else
      var (d', result) := ApplyKey(d, env, keys[0], patch[keys[0]]);
      if result.Some? then (d', result.value) else ApplyPatch(d', env, patch, keys[1..])
  }

  /** `keys` is an order in which Go may visit `patch`. */
  ghost predicate IsOrderOf(keys: seq<string>, patch: Patch) {
    multiset(keys) == multiset(patch.Keys)
  }

  /** The values Go's type assertion on `ntpServer` does not panic on. */
  predicate HasTextServer(patch: Patch) {
    "ntpServer" in patch ==> patch["ntpServer"].Text?
  }

  class TimeSettings {
    const file: TimesyncdConf
    var calls: seq<DBusCall>

    ghost function View(): Device
      reads this, file
    {
      Device(file.conf, calls)
    }

    constructor (f: TimesyncdConf)
      ensures file == f && calls == []
    {
      file, calls := f, [];
    }

    method UpdateTimeDate(env: Environment, call: DBusCall) returns (ok: bool)
      modifies this
      ensures (View(), ok) == CallBus(old(View()), env, call)
    {
      if !env.connects { return false; }
      calls := calls + [call];
      return env.accepts(call);
    }

    method SetTimeInfo(patch: Patch, keys: seq<string>, env: Environment) returns (ok: bool)
      requires HasTextServer(patch) && forall k :: k in keys ==> k in patch
      modifies this, file
      ensures (View(), ok) == ApplyPatch(old(View()), env, patch, keys)
    {
      for i := 0 to |keys|
        invariant ApplyPatch(old(View()), env, patch, keys) == ApplyPatch(View(), env, patch, keys[i..])
      {
        var k, v := keys[i], patch[keys[i]];
        assert keys[i..][0] == k && keys[i..][1..] == keys[i + 1..];
        if k == "ntp" {
          if !v.Flag? { return false; }
          ok := UpdateTimeDate(env, SetNTP(v.flag));
          return;
        } else if k == "ntpServer" {
          var written := file.WriteNTPServer(v.text, env.saves);
          if !written { return false; }
        } else if k == "dateTime" {
          if !v.Number? { return false; }
          ok := UpdateTimeDate(env, SetTime(v.number));
          return;
        } else if k == "timezone" {
          if !v.Text? { return false; }
          ok := UpdateTimeDate(env, SetTimezone(v.text));
          return;
        }
      }
      return true;
    }
  }

  predicate AlwaysReturns(k: string) {
    k == "ntp" || k == "dateTime" || k == "timezone"
  }

  predicate IsRecognised(k: string) {
    AlwaysReturns(k) || k == "ntpServer"
  }

  /** Whatever the order, at most one call reaches the bus. */
  lemma {:induction false} AtMostOneCall(d: Device, env: Environment, patch: Patch, keys: seq<string>)
    requires forall k :: k in keys ==> k in patch
    decreases |keys|
    ensures var after := ApplyPatch(d, env, patch, keys).0;
      after.calls == d.calls || exists c :: after.calls == d.calls + [c]
  {
    if keys != [] {
      var (d', result) := ApplyKey(d, env, keys[0], patch[keys[0]]);
      if result.None? { AtMostOneCall(d', env, patch, keys[1..]); }
    }
  }

  ghost predicate AreDistinct(keys: seq<string>) {
    forall i, j :: 0 <= i < j < |keys| ==> keys[i] != keys[j]
  }

  /** Among the first `i` keys is the server, and writing it fails. */
  ghost predicate WriteFailsBefore(d: Device, env: Environment, patch: Patch, keys: seq<string>, i: nat)
    requires i <= |keys| && HasTextServer(patch) && forall k :: k in keys ==> k in patch
  {
    exists j :: 0 <= j < i && keys[j] == "ntpServer" && !AfterWrite(d.conf, patch["ntpServer"].text, env.saves).1
  }

  /** The call that a key asks for, when its value has the right type. */
  ghost predicate AsksFor(k: string, v: Value, call: DBusCall) {
    || (k == "ntp" && v.Flag? && call == SetNTP(v.flag))
    || (k == "dateTime" && v.Number? && call == SetTime(v.number))
    || (k == "timezone" && v.Text? && call == SetTimezone(v.text))
  }

  /**
   The call that reaches the bus. Let `i` be the first key of the order that returns. If writing the server fails
   before it, nothing is called and the patch fails. Otherwise the call is that of this key, with its value,
   and its success is the success of the patch; nothing is called, and the patch fails, if the value has the
   wrong type or the bus cannot be reached.
   */
  lemma {:induction false} CallIsOfFirstReturningKey(
      d: Device, env: Environment, patch: Patch, keys: seq<string>, i: nat, call: DBusCall)
    requires HasTextServer(patch) && (forall k :: k in keys ==> k in patch) && AreDistinct(keys)
    requires i < |keys| && keys[i] in {"ntp", "dateTime", "timezone"}
    requires forall j :: 0 <= j < i ==> keys[j] !in {"ntp", "dateTime", "timezone"}
    ensures var (after, ok) := ApplyPatch(d, env, patch, keys);
      && (WriteFailsBefore(d, env, patch, keys, i) ==> after.calls == d.calls && !ok)
      && (!WriteFailsBefore(d, env, patch, keys, i) && env.connects && AsksFor(keys[i], patch[keys[i]], call) ==>
            after.calls == d.calls + [call] && ok == env.accepts(call))
      && (!env.connects || (forall c :: !AsksFor(keys[i], patch[keys[i]], c)) ==> after.calls == d.calls && !ok)
    decreases i
  {
    var (d', result) := ApplyKey(d, env, keys[0], patch[keys[0]]);
    if i == 0 {
      ReturningKeyCalls(d, env, keys[0], patch[keys[0]], call);
    } else if keys[0] == "ntpServer" {
      if result.None? {
        assert !WriteFailsBefore(d, env, patch, keys, i);
        assert forall j :: 0 <= j < i - 1 ==> keys[1..][j] == keys[j + 1] != "ntpServer";
        CallIsOfFirstReturningKey(d', env, patch, keys[1..], i - 1, call);
      }
    } else {
      assert d' == d && result.None?;
      CallIsOfFirstReturningKey(d, env, patch, keys[1..], i - 1, call);
      if WriteFailsBefore(d, env, patch, keys, i) {
        var j :| 0 <= j < i && keys[j] == "ntpServer";
        assert keys[1..][j - 1] == "ntpServer";
      }
    }
  }

  lemma ReturningKeyCalls(d: Device, env: Environment, k: string, v: Value, call: DBusCall)
    requires k in {"ntp", "dateTime", "timezone"}
    ensures var (after, result) := ApplyKey(d, env, k, v);
      && result.Some?
      && (env.connects && AsksFor(k, v, call) ==>
            after.calls == d.calls + [call] && result == Some(env.accepts(call)))
      && (!env.connects || (forall c :: !AsksFor(k, v, c)) ==> after == d && result == Some(false))
  {
    if k == "ntp" && v.Flag? { assert AsksFor(k, v, SetNTP(v.flag)); }
    if k == "dateTime" && v.Number? { assert AsksFor(k, v, SetTime(v.number)); }
    if k == "timezone" && v.Text? { assert AsksFor(k, v, SetTimezone(v.text)); }
  }

  /** A patch without a key that returns calls nothing, and fails exactly if it writes the server in vain. */
  lemma {:induction false} NothingIsCalled(d: Device, env: Environment, patch: Patch, keys: seq<string>)
    requires HasTextServer(patch) && (forall k :: k in keys ==> k in patch) && AreDistinct(keys)
    requires forall k :: k in keys ==> k !in {"ntp", "dateTime", "timezone"}
    ensures var (after, ok) := ApplyPatch(d, env, patch, keys);
      && after.calls == d.calls
      && (ok <==> "ntpServer" !in keys || AfterWrite(d.conf, patch["ntpServer"].text, env.saves).1)
    decreases |keys|
  {
    if keys != [] {
      var (d', result) := ApplyKey(d, env, keys[0], patch[keys[0]]);
      assert keys == [keys[0]] + keys[1..];
      assert keys[0] in keys && keys[0] !in keys[1..] && forall k :: k in keys[1..] ==> k in keys;
      if result.None? { NothingIsCalled(d', env, patch, keys[1..]); }
    }
  }

  /** Keys after the first one that returns are never looked at. */
  lemma {:induction false} FirstReturningKeyDecides(
      d: Device, env: Environment, patch: Patch, keys: seq<string>, i: nat)
    requires forall k :: k in keys ==> k in patch
    requires i < |keys| && AlwaysReturns(keys[i])
    ensures ApplyPatch(d, env, patch, keys) == ApplyPatch(d, env, patch, keys[..i + 1])
    decreases i
  {
    var (d', result) := ApplyKey(d, env, keys[0], patch[keys[0]]);
    assert keys[..i + 1][0] == keys[0] && keys[..i + 1][1..] == keys[1..][..i];
    if i > 0 && result.None? {
      FirstReturningKeyDecides(d', env, patch, keys[1..], i - 1);
    }
  }

  lemma {:induction false} FileUntouchedWithoutKey(d: Device, env: Environment, patch: Patch, keys: seq<string>)
    requires (forall k :: k in keys ==> k in patch) && "ntpServer" !in keys
    ensures ApplyPatch(d, env, patch, keys).0.conf == d.conf
    decreases |keys|
  {
    if keys != [] {
      var (d', result) := ApplyKey(d, env, keys[0], patch[keys[0]]);
      if result.None? { FileUntouchedWithoutKey(d', env, patch, keys[1..]); }
    }
  }

  /** The server is written exactly when its key comes before every key that returns. */
  lemma {:induction false} ServerIsWrittenIff(d: Device, env: Environment, patch: Patch, keys: seq<string>, i: nat)
    requires (forall k :: k in keys ==> k in patch) && HasTextServer(patch)
    requires i < |keys| && keys[i] == "ntpServer" && forall j :: 0 <= j < |keys| && j != i ==> keys[j] != "ntpServer"
    ensures ApplyPatch(d, env, patch, keys).0.conf ==
      if exists j :: 0 <= j < i && AlwaysReturns(keys[j]) then d.conf
      else AfterWrite(d.conf, patch["ntpServer"].text, env.saves).0
  {
    var (d', result) := ApplyKey(d, env, keys[0], patch[keys[0]]);
    if i == 0 {
      assert "ntpServer" !in keys[1..];
      if result.None? { FileUntouchedWithoutKey(d', env, patch, keys[1..]); }
    } else if !AlwaysReturns(keys[0]) {
      assert keys[0] != "ntpServer" && d' == d && result.None?;
      ServerIsWrittenIff(d, env, patch, keys[1..], i - 1);
      if j :| 0 <= j < i && AlwaysReturns(keys[j]) { assert AlwaysReturns(keys[1..][j - 1]); }
    }
  }

  function Recognised(keys: seq<string>): seq<string> {
    if keys == [] then []
    else (if IsRecognised(keys[0]) then [keys[0]] else []) + Recognised(keys[1..])
  }

  lemma {:induction false} RecognisedAreKeys(keys: seq<string>, k: string)
    ensures multiset(Recognised(keys))[k] == if IsRecognised(k) then multiset(keys)[k] else 0
  {
    if keys != [] {
      RecognisedAreKeys(keys[1..], k);
      assert keys == [keys[0]] + keys[1..];
    }
  }

  lemma {:induction false} UnknownKeysDoNothing(d: Device, env: Environment, patch: Patch, keys: seq<string>)
    requires forall k :: k in keys ==> k in patch
    decreases |keys|
    ensures forall k :: k in Recognised(keys) ==> k in keys
    ensures ApplyPatch(d, env, patch, keys) == ApplyPatch(d, env, patch, Recognised(keys))
  {
    if keys != [] {
      var k := keys[0];
      var (d', result) := ApplyKey(d, env, k, patch[k]);
      UnknownKeysDoNothing(d', env, patch, keys[1..]);
      if IsRecognised(k) {
        assert Recognised(keys)[0] == k && Recognised(keys)[1..] == Recognised(keys[1..]);
      } else {
        assert d' == d && result.None? && Recognised(keys) == Recognised(keys[1..]);
      }
    }
  }

  /** With at most one recognised key, the order in which Go visits the patch does not matter. */
  lemma OrderDoesNotMatter(
      d: Device, env: Environment, patch: Patch, keys: seq<string>, keys': seq<string>, only: string)
    requires IsOrderOf(keys, patch) && IsOrderOf(keys', patch)
    requires forall k :: k in patch && IsRecognised(k) ==> k == only
    ensures (forall k :: k in keys ==> k in patch) && (forall k :: k in keys' ==> k in patch)
    ensures ApplyPatch(d, env, patch, keys) == ApplyPatch(d, env, patch, keys')
  {
    OrderVisitsKeys(keys, patch);
    OrderVisitsKeys(keys', patch);
    UnknownKeysDoNothing(d, env, patch, keys);
    UnknownKeysDoNothing(d, env, patch, keys');
    OneRecognised(keys, patch, only);
    OneRecognised(keys', patch, only);
  }

  lemma OrderVisitsKeys(keys: seq<string>, patch: Patch)
    requires IsOrderOf(keys, patch)
    ensures forall k :: k in keys <==> k in patch
  {
    forall k ensures k in keys <==> k in patch {
      assert k in keys <==> k in multiset(keys);
      assert k in multiset(patch.Keys) <==> k in patch;
    }
  }

  lemma OneRecognised(keys: seq<string>, patch: Patch, only: string)
    requires IsOrderOf(keys, patch) && forall k :: k in patch && IsRecognised(k) ==> k == only
    ensures Recognised(keys) == if only in patch && IsRecognised(only) then [only] else []
  {
    var ks := Recognised(keys);
    var expected := if only in patch && IsRecognised(only) then multiset{only} else multiset{};
    forall k ensures multiset(ks)[k] == expected[k] {
      RecognisedAreKeys(keys, k);
    }
    assert multiset(ks) == expected;
    assert |ks| == |multiset(ks)|;
    if ks != [] { assert ks[0] in multiset(ks); }
  }

  /** What `setTimeInfo` makes of the device in one of the orders in which Go may visit the patch. */
  ghost function Outcome(d: Device, env: Environment, patch: Patch, keys: seq<string>): (Device, bool)
    requires IsOrderOf(keys, patch)
  {
    OrderVisitsKeys(keys, patch);
    ApplyPatch(d, env, patch, keys)
  }

  ghost predicate EveryOrderAgrees(d: Device, env: Environment, patch: Patch) {
    forall keys, keys' :: IsOrderOf(keys, patch) && IsOrderOf(keys', patch) ==>
      Outcome(d, env, patch, keys) == Outcome(d, env, patch, keys')
  }

  /** The value has the type its key asks for, and there is a bus to call: visiting the key makes a call. */
  predicate MakesCall(env: Environment, k: string, v: Value) {
    && env.connects
    && ((k == "ntp" && v.Flag?) || (k == "dateTime" && v.Number?) || (k == "timezone" && v.Text?))
  }

  /**
   Of several keys that return none makes a call; and a server beside a key that returns is a write that changes
   nothing, and that succeeds or else the other key makes no call either.
   */
  ghost predicate OrderIsImmaterial(d: Device, env: Environment, patch: Patch)
    requires HasTextServer(patch)
  {
    && (forall a, b :: a in patch && b in patch && AlwaysReturns(a) && AlwaysReturns(b) && a != b ==>
          !MakesCall(env, a, patch[a]))
    && ("ntpServer" in patch ==>
          var (conf, ok) := AfterWrite(d.conf, patch["ntpServer"].text, env.saves);
          forall a :: a in patch && AlwaysReturns(a) ==> conf == d.conf && (ok || !MakesCall(env, a, patch[a])))
  }

  /** A key that returns either makes its call, or fails and leaves the device alone. */
  lemma ReturningKey(d: Device, env: Environment, k: string, v: Value)
    requires AlwaysReturns(k)
    ensures var (d', result) := ApplyKey(d, env, k, v);
      && result.Some?
      && (if MakesCall(env, k, v) then d'.conf == d.conf && |d'.calls| == |d.calls| + 1
          else (d', result) == (d, Some(false)))
  {
  }

  /** When the order is immaterial, each key that returns has the outcome of the whole patch. */
  lemma {:induction false} ImmaterialOrder(d: Device, env: Environment, patch: Patch, keys: seq<string>, a: string)
    requires HasTextServer(patch) && OrderIsImmaterial(d, env, patch)
    requires (forall k :: k in keys ==> k in patch) && a in keys && AlwaysReturns(a)
    decreases |keys|
    ensures var (d', result) := ApplyKey(d, env, a, patch[a]);
      result.Some? && ApplyPatch(d, env, patch, keys) == (d', result.value)
  {
    var k := keys[0];
    ReturningKey(d, env, a, patch[a]);
    if AlwaysReturns(k) {
      ReturningKey(d, env, k, patch[k]);
    } else {
      assert a in keys[1..];
      if ApplyKey(d, env, k, patch[k]).1.None? {
        ImmaterialOrder(d, env, patch, keys[1..], a);
      }
    }
  }

  lemma {:induction false} ListOf(all: set<string>) returns (keys: seq<string>)
    ensures multiset(keys) == multiset(all)
  {
    if all == {} {
      keys := [];
    } else {
      var k :| k in all;
      var rest := ListOf(all - {k});
      keys := [k] + rest;
      assert all == all - {k} + {k};
    }
  }

  /** Go may visit any key first. */
  lemma OrderFrom(patch: Patch, k: string) returns (keys: seq<string>)
    requires k in patch
    ensures IsOrderOf(keys, patch) && keys != [] && keys[0] == k && k !in keys[1..]
  {
    var rest := ListOf(patch.Keys - {k});
    keys := [k] + rest;
    assert patch.Keys == patch.Keys - {k} + {k};
    assert k !in multiset(rest) && keys[1..] == rest;
  }

  lemma StartingWith(d: Device, env: Environment, patch: Patch, k: string) returns (keys: seq<string>)
    requires k in patch && HasTextServer(patch)
    ensures IsOrderOf(keys, patch)
    ensures var (d', result) := ApplyKey(d, env, k, patch[k]);
      result.Some? ==> Outcome(d, env, patch, keys) == (d', result.value)
    ensures k == "ntpServer" ==>
      Outcome(d, env, patch, keys).0.conf == AfterWrite(d.conf, patch[k].text, env.saves).0
  {
    keys := OrderFrom(patch, k);
    OrderVisitsKeys(keys, patch);
    if k == "ntpServer" {
      assert forall j :: 0 < j < |keys| ==> keys[j] == keys[1..][j - 1];
      ServerIsWrittenIff(d, env, patch, keys, 0);
    }
  }

  /** Two keys that return, one of which makes a call, have different outcomes. */
  lemma DifferentKeysDiffer(d: Device, env: Environment, patch: Patch, a: string, b: string)
    requires a in patch && b in patch && AlwaysReturns(a) && AlwaysReturns(b) && a != b
    requires MakesCall(env, a, patch[a])
    ensures ApplyKey(d, env, a, patch[a]).0.calls != ApplyKey(d, env, b, patch[b]).0.calls
  {
    var afterA, afterB := ApplyKey(d, env, a, patch[a]).0.calls, ApplyKey(d, env, b, patch[b]).0.calls;
    ReturningKey(d, env, b, patch[b]);
    assert |afterA| == |d.calls| + 1;
    if MakesCall(env, b, patch[b]) { assert afterA[|d.calls|] != afterB[|d.calls|]; }
  }

  lemma MaterialReturningKeys(d: Device, env: Environment, patch: Patch, a: string, b: string)
    requires HasTextServer(patch) && EveryOrderAgrees(d, env, patch)
    requires a in patch && b in patch && AlwaysReturns(a) && AlwaysReturns(b) && a != b
    ensures !MakesCall(env, a, patch[a])
  {
    if MakesCall(env, a, patch[a]) {
      var keys := StartingWith(d, env, patch, a);
      var keys' := StartingWith(d, env, patch, b);
      ReturningKey(d, env, a, patch[a]);
      ReturningKey(d, env, b, patch[b]);
      assert Outcome(d, env, patch, keys) == Outcome(d, env, patch, keys');
      DifferentKeysDiffer(d, env, patch, a, b);
    }
  }

  lemma MaterialServer(d: Device, env: Environment, patch: Patch, a: string)
    requires HasTextServer(patch) && EveryOrderAgrees(d, env, patch)
    requires "ntpServer" in patch && a in patch && AlwaysReturns(a)
    ensures var (conf, ok) := AfterWrite(d.conf, patch["ntpServer"].text, env.saves);
      conf == d.conf && (ok || !MakesCall(env, a, patch[a]))
  {
    var keys := StartingWith(d, env, patch, a);
    var keys' := StartingWith(d, env, patch, "ntpServer");
    ReturningKey(d, env, a, patch[a]);
    assert Outcome(d, env, patch, keys) == Outcome(d, env, patch, keys');
  }

  /** When the order does not matter: every order of the patch has the same outcome iff the order is immaterial. */
  lemma EveryOrderAgreesIff(d: Device, env: Environment, patch: Patch)
    requires HasTextServer(patch)
    ensures EveryOrderAgrees(d, env, patch) <==> OrderIsImmaterial(d, env, patch)
  {
    if EveryOrderAgrees(d, env, patch) {
      forall a, b | a in patch && b in patch && AlwaysReturns(a) && AlwaysReturns(b) && a != b
        ensures !MakesCall(env, a, patch[a])
      {
        MaterialReturningKeys(d, env, patch, a, b);
      }
      if "ntpServer" in patch {
        forall a | a in patch && AlwaysReturns(a)
          ensures var (conf, ok) := AfterWrite(d.conf, patch["ntpServer"].text, env.saves);
            conf == d.conf && (ok || !MakesCall(env, a, patch[a]))
        {
          MaterialServer(d, env, patch, a);
        }
      }
    }
    if OrderIsImmaterial(d, env, patch) {
      forall keys, keys' | IsOrderOf(keys, patch) && IsOrderOf(keys', patch)
        ensures Outcome(d, env, patch, keys) == Outcome(d, env, patch, keys')
      {
        ImmaterialOutcome(d, env, patch, keys, keys');
      }
    }
  }

  lemma ImmaterialOutcome(d: Device, env: Environment, patch: Patch, keys: seq<string>, keys': seq<string>)
    requires HasTextServer(patch) && OrderIsImmaterial(d, env, patch)
    requires IsOrderOf(keys, patch) && IsOrderOf(keys', patch)
    ensures Outcome(d, env, patch, keys) == Outcome(d, env, patch, keys')
  {
    OrderVisitsKeys(keys, patch);
    OrderVisitsKeys(keys', patch);
    if a :| a in patch && AlwaysReturns(a) {
      ImmaterialOrder(d, env, patch, keys, a);
      ImmaterialOrder(d, env, patch, keys', a);
    } else {
      OrderDoesNotMatter(d, env, patch, keys, keys', "ntpServer");
    }
  }

  /** An instance where the order matters: one order writes the server and the other does not. */
  lemma OrderMayMatter(env: Environment) returns (d: Device, patch: Patch)
    requires env.saves
    ensures patch.Keys == {"ntp", "ntpServer"} && HasTextServer(patch)
    ensures ApplyPatch(d, env, patch, ["ntp", "ntpServer"]).0.conf !=
      ApplyPatch(d, env, patch, ["ntpServer", "ntp"]).0.conf
  {
    d := Device(TimeSection(None), []);
    patch := map["ntp" := Flag(true), "ntpServer" := Text("a")];
    ServerIsWrittenIff(d, env, patch, ["ntp", "ntpServer"], 1);
    ServerIsWrittenIff(d, env, patch, ["ntpServer", "ntp"], 0);
    assert AlwaysReturns(["ntp", "ntpServer"][0]);
  }
}
