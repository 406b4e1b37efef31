/** Topic and filter builders and the topic parser of internal/tunnel/protocol.go, with the filter
    matching of MQTT 5.0 (sections 4.7.1 and 4.7.2). */
module Topics {
  const SLASH := '/'

  predicate SlashFree(s: string) { SLASH !in s }

  predicate WildcardFree(s: string) { '+' !in s && '#' !in s }

  function Split(s: string): (parts: seq<string>)
    ensures parts != []
  {
    if s == "" then [""]
    else
      var rest := Split(s[1..]);
      if s[0] == SLASH then [""] + rest else [[s[0]] + rest[0]] + rest[1..]
  }

  function Join(parts: seq<string>): string
    requires parts != []
  {
    if |parts| == 1 then parts[0] else parts[0] + [SLASH] + Join(parts[1..])
  }

  ghost predicate AllSlashFree(parts: seq<string>) {
    forall i :: 0 <= i < |parts| ==> SlashFree(parts[i])
  }

  lemma {:induction false} SplitPrefix(p: string, s: string)
    requires SlashFree(p)
    ensures Split(p + [SLASH] + s) == [p] + Split(s)
  {
    if p == "" {
      assert (p + [SLASH] + s)[1..] == s;
    } else {
      assert (p + [SLASH] + s)[1..] == p[1..] + [SLASH] + s;
      SplitPrefix(p[1..], s);
      assert [p[0]] + p[1..] == p;
    }
  }

  lemma {:induction false} SplitWhole(p: string)
    requires SlashFree(p)
    ensures Split(p) == [p]
  {
    if p != "" {
      SplitWhole(p[1..]);
      assert [p[0]] + p[1..] == p;
    }
  }

  lemma {:induction false} SplitJoin(parts: seq<string>)
    requires parts != [] && AllSlashFree(parts)
    ensures Split(Join(parts)) == parts
  {
    if |parts| == 1 {
      SplitWhole(parts[0]);
    } else {
      SplitJoin(parts[1..]);
      SplitPrefix(parts[0], Join(parts[1..]));
    }
  }

  lemma {:induction false} JoinSplit(s: string)
    ensures Join(Split(s)) == s && AllSlashFree(Split(s))
  {
    if s != "" {
      var rest := Split(s[1..]);
      JoinSplit(s[1..]);
      assert s == [s[0]] + s[1..];
      if s[0] == SLASH {
        assert ([""] + rest)[1..] == rest;
      } else if |rest| > 1 {
        assert ([[s[0]] + rest[0]] + rest[1..])[1..] == rest[1..];
      }
    }
  }

  // ---- builders ----

  datatype Direction = In | Out

  function Name(dir: Direction): string {
    if dir.In? then "in" else "out"
  }

  function ControlTopic(dir: Direction, device: string): string {
    Join(["tunnel", device, Name(dir), "control"])
  }

  function DataTopic(dir: Direction, device: string, session: string): string {
    Join(["tunnel", device, Name(dir), "data", session])
  }

  function ControlFilter(dir: Direction, device: string): string {
    Join(["tunnel", device, Name(dir), "control"])
  }

  function DataFilter(dir: Direction, device: string): string {
    Join(["tunnel", device, Name(dir), "data", "+"])
  }

  function AllOutControlFilter(): string {
    Join(["tunnel", "+", "out", "control"])
  }

  function SharedPingTopic(): string {
    Join(["tunnel", "__shared__", "ping"])
  }

  /** The texts on the wire: `in` goes to the device, `out` comes from it. */
  lemma BuiltTexts(device: string, session: string)
    ensures ControlTopic(In, device) == "tunnel/" + device + "/in/control" == ControlFilter(In, device)
    ensures ControlTopic(Out, device) == "tunnel/" + device + "/out/control" == ControlFilter(Out, device)
    ensures DataTopic(In, device, session) == "tunnel/" + device + "/in/data/" + session
    ensures DataTopic(Out, device, session) == "tunnel/" + device + "/out/data/" + session
    ensures DataFilter(In, device) == "tunnel/" + device + "/in/data/+"
    ensures DataFilter(Out, device) == "tunnel/" + device + "/out/data/+"
    ensures AllOutControlFilter() == "tunnel/+/out/control" && SharedPingTopic() == "tunnel/__shared__/ping"
  {
    JoinedTexts("in", device, session);
    JoinedTexts("out", device, session);
    JoinedTexts("in", device, "+");
    JoinedTexts("out", device, "+");
    JoinedTexts("out", "+", session);
    assert Join(["__shared__", "ping"]) == "__shared__/ping" by { assert ["__shared__", "ping"][1..] == ["ping"]; }
    assert ["tunnel", "__shared__", "ping"][1..] == ["__shared__", "ping"];
    hide Join;
  }

  lemma JoinedTexts(dir: string, device: string, session: string)
    ensures Join(["tunnel", device, dir, "control"]) == "tunnel/" + device + "/" + dir + "/control"
    ensures Join(["tunnel", device, dir, "data", session]) == "tunnel/" + device + "/" + dir + "/data/" + session
  {
    Join4("tunnel", device, dir, "control");
    var parts := ["tunnel", device, dir, "data", session];
    assert parts[1..] == [device, dir, "data", session];
    Join4(device, dir, "data", session);
  }

  lemma Join4(a: string, b: string, c: string, d: string)
    ensures Join([a, b, c, d]) == a + "/" + b + "/" + c + "/" + d
  {
    assert [a, b, c, d][1..] == [b, c, d] && [b, c, d][1..] == [c, d] && [c, d][1..] == [d];
    assert Join([c, d]) == c + "/" + d;
    assert Join([b, c, d]) == b + "/" + (c + "/" + d);
  }

  // ---- the parser ----

  datatype ParsedTopic = ParsedTopic(device: string, isControl: bool, isData: bool, session: string)

  datatype ParseResult = Parsed(topic: ParsedTopic) | TooShort | BadPrefix | BadDirection | BadLength | UnknownType

  function ParseTopic(topic: string): ParseResult {
    var parts := Split(topic);
    if |parts| < 4 then TooShort
    else if parts[0] != "tunnel" then BadPrefix
    else if parts[2] != "in" && parts[2] != "out" then BadDirection
    else if parts[3] == "control" then
      if |parts| != 4 then BadLength else Parsed(ParsedTopic(parts[1], true, false, ""))
    else if parts[3] == "data" then
      if |parts| != 5 then BadLength else Parsed(ParsedTopic(parts[1], false, true, parts[4]))
    else UnknownType
  }

  lemma ControlSplits(dir: Direction, device: string)
    requires SlashFree(device)
    ensures Split(ControlTopic(dir, device)) == ["tunnel", device, Name(dir), "control"]
  {
    SplitJoin(["tunnel", device, Name(dir), "control"]);
  }

  lemma DataSplits(dir: Direction, device: string, session: string)
    requires SlashFree(device) && SlashFree(session)
    ensures Split(DataTopic(dir, device, session)) == ["tunnel", device, Name(dir), "data", session]
  {
    SplitJoin(["tunnel", device, Name(dir), "data", session]);
  }

  /** The parser inverts every builder. */
  lemma ParseInvertsBuilders(dir: Direction, device: string, session: string)
    requires SlashFree(device) && SlashFree(session)
    ensures ParseTopic(ControlTopic(dir, device)) == Parsed(ParsedTopic(device, true, false, ""))
    ensures ParseTopic(DataTopic(dir, device, session)) == Parsed(ParsedTopic(device, false, true, session))
  {
    ControlSplits(dir, device);
    DataSplits(dir, device, session);
  }

  /** And it accepts nothing else. */
  lemma ParseAcceptsOnlyBuilt(topic: string)
    requires ParseTopic(topic).Parsed?
    ensures var p := ParseTopic(topic).topic;
            && SlashFree(p.device) && SlashFree(p.session) && p.isData == !p.isControl
            && exists dir :: topic == if p.isControl then ControlTopic(dir, p.device) else DataTopic(dir, p.device, p.session)
  {
    JoinSplit(topic);
    var parts := Split(topic);
    var p := ParseTopic(topic).topic;
    var dir := if parts[2] == "in" then In else Out;
    if p.isControl {
      assert parts == ["tunnel", p.device, Name(dir), "control"];
      assert topic == ControlTopic(dir, p.device);
    } else {
      assert parts == ["tunnel", p.device, Name(dir), "data", p.session];
      assert topic == DataTopic(dir, p.device, p.session);
    }
  }

  // ---- filters ----

  predicate MatchLevels(filter: seq<string>, topic: seq<string>) {
    if filter == [] then topic == []
    else if filter[0] == "#" then true
    else if topic == [] then false
    else (filter[0] == "+" || filter[0] == topic[0]) && MatchLevels(filter[1..], topic[1..])
  }

  /** Wildcards at the front do not match topics that begin with a dollar sign. */
  predicate Matches(filter: string, topic: string) {
    var (fs, ts) := (Split(filter), Split(topic));
    MatchLevels(fs, ts) && !((fs[0] == "+" || fs[0] == "#") && ts[0] != "" && ts[0][0] == '$')
  }

  /** Without a multi-level wildcard, filter and topic agree level by level. */
  lemma {:induction false} MatchLevelwise(filter: seq<string>, topic: seq<string>)
    requires forall i :: 0 <= i < |filter| ==> filter[i] != "#"
    ensures MatchLevels(filter, topic) <==>
            |filter| == |topic| && forall i :: 0 <= i < |filter| ==> filter[i] == "+" || filter[i] == topic[i]
  {
    if filter != [] && topic != [] {
      MatchLevelwise(filter[1..], topic[1..]);
      if |filter| == |topic| && (filter[0] == "+" || filter[0] == topic[0])
         && forall i :: 0 <= i < |filter| - 1 ==> filter[1..][i] == "+" || filter[1..][i] == topic[1..][i] {
        forall i | 0 <= i < |filter| ensures filter[i] == "+" || filter[i] == topic[i] {
          if i > 0 { assert filter[1..][i - 1] == filter[i] && topic[1..][i - 1] == topic[i]; }
        }
      }
    }
  }

  /** A data filter matches exactly the data topics of its device and direction. */
  lemma DataFilterExact(dir: Direction, device: string, topic: string)
    requires SlashFree(device) && WildcardFree(device)
    ensures Matches(DataFilter(dir, device), topic) <==>
            exists session :: SlashFree(session) && topic == DataTopic(dir, device, session)
  {
    DataSplits(dir, device, "+");
    MatchLevelwise(["tunnel", device, Name(dir), "data", "+"], Split(topic));
    JoinSplit(topic);
    if Matches(DataFilter(dir, device), topic) {
      var session := Split(topic)[4];
      assert Split(topic) == ["tunnel", device, Name(dir), "data", session];
      assert topic == DataTopic(dir, device, session);
    }
    forall session | SlashFree(session) && topic == DataTopic(dir, device, session)
      ensures Matches(DataFilter(dir, device), topic)
    {
      DataSplits(dir, device, session);
    }
  }

  /** A control filter matches its own topic and nothing else. */
  lemma ControlFilterExact(dir: Direction, device: string, topic: string)
    requires SlashFree(device) && WildcardFree(device)
    ensures Matches(ControlFilter(dir, device), topic) <==> topic == ControlTopic(dir, device)
  {
    ControlSplits(dir, device);
    MatchLevelwise(["tunnel", device, Name(dir), "control"], Split(topic));
    JoinSplit(topic);
    if Matches(ControlFilter(dir, device), topic) {
      assert Split(topic) == ["tunnel", device, Name(dir), "control"];
    }
  }

  /** The status filter hears the control topic of every device, and nothing else. */
  lemma AllOutControlFilterExact(topic: string)
    ensures Matches(AllOutControlFilter(), topic) <==>
            exists device :: SlashFree(device) && topic == ControlTopic(Out, device)
  {
    ControlSplits(Out, "+");
    MatchLevelwise(["tunnel", "+", "out", "control"], Split(topic));
    JoinSplit(topic);
    if Matches(AllOutControlFilter(), topic) {
      var device := Split(topic)[1];
      assert Split(topic) == ["tunnel", device, Name(Out), "control"];
      assert topic == ControlTopic(Out, device);
    }
    forall device | SlashFree(device) && topic == ControlTopic(Out, device)
      ensures Matches(AllOutControlFilter(), topic)
    {
      ControlSplits(Out, device);
    }
  }

  /** What a matching topic says about the filter. */
  lemma MatchShape(dir: Direction, device: string, topic: string)
    requires SlashFree(device) && WildcardFree(device)
    ensures var parts := Split(topic);
            && (Matches(DataFilter(dir, device), topic) ==>
                  |parts| == 5 && parts[1] == device && parts[2] == Name(dir) && parts[3] == "data")
            && (Matches(ControlFilter(dir, device), topic) ==>
                  |parts| == 4 && parts[1] == device && parts[2] == Name(dir))
  {
    DataSplits(dir, device, "+");
    ControlSplits(dir, device);
    MatchLevelwise(["tunnel", device, Name(dir), "data", "+"], Split(topic));
    MatchLevelwise(["tunnel", device, Name(dir), "control"], Split(topic));
  }

  /** No topic is heard under two devices or two directions, nor as both data and control; and the
      shared ping topic is heard under none of these filters. */
  lemma FiltersDisjoint(dir: Direction, device: string, dir': Direction, device': string, topic: string)
    requires SlashFree(device) && WildcardFree(device) && SlashFree(device') && WildcardFree(device')
    ensures Matches(DataFilter(dir, device), topic) && Matches(DataFilter(dir', device'), topic) ==>
              dir == dir' && device == device'
    ensures Matches(ControlFilter(dir, device), topic) && Matches(ControlFilter(dir', device'), topic) ==>
              dir == dir' && device == device'
    ensures !(Matches(DataFilter(dir, device), topic) && Matches(ControlFilter(dir', device'), topic))
    ensures !Matches(DataFilter(dir, device), SharedPingTopic()) && !Matches(ControlFilter(dir, device), SharedPingTopic())
  {
    MatchShape(dir, device, topic);
    MatchShape(dir', device', topic);
    hide Matches, DataFilter, ControlFilter, Split;
    PingHeardByNone(dir, device);
  }

  lemma PingHeardByNone(dir: Direction, device: string)
    requires SlashFree(device) && WildcardFree(device)
    ensures !Matches(DataFilter(dir, device), SharedPingTopic()) && !Matches(ControlFilter(dir, device), SharedPingTopic())
  {
    SplitJoin(["tunnel", "__shared__", "ping"]);
    DataSplits(dir, device, "+");
    ControlSplits(dir, device);
    MatchLevelwise(["tunnel", device, Name(dir), "data", "+"], ["tunnel", "__shared__", "ping"]);
    MatchLevelwise(["tunnel", device, Name(dir), "control"], ["tunnel", "__shared__", "ping"]);
  }
}
