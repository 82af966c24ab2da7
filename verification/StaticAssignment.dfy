/** Static DHCP leases: the planner of backend/modules/lancontrol/staticassignment/service.go,
    the request handling of backend/service/lan_static_assignment_write_usecase.go and the
    store of backend/service/lan_static_assignment_write_store.go.

    The configuration is the list of its `host` sections, in file order. A section without a
    name is reached by its place, the way `dhcp.@host[2]` is, so deleting one section moves
    every later place. */
module StaticAssignment {
  import opened Wrappers

  datatype Host = Host(name: string, mac: string, ip: string, hostname: string,
                       tag: string, title: string, enabled: bool)

  datatype SectionRef = Named(name: string) | At(index: nat)

  datatype HostRecord = HostRecord(section: SectionRef, mac: string, ip: string)

  datatype Input = Input(action: string, mac: string, ip: string, bindIp: bool, hostname: string,
                         tagName: string, tagTitle: string, autoTag: bool)

  datatype Tag = Tag(name: string, title: string, autoCreated: bool)

  datatype Command = Del(section: SectionRef) | Commit | AddTag(tag: string) | AddHost
    | SetEnabled | SetMac(value: string) | SetTag(value: string) | SetTitle(value: string)
    | SetName(value: string) | SetIp(value: string)

  datatype Outcome = Ok | MacRequired | InvalidAction | TagNotFound | IpInUse | EmptyCommands

  const NEW_SECTION := Host("", "", "", "", "", "", false)

  // ----- what the commands do -----

  function IndexOfName(hosts: seq<Host>, name: string): (i: nat)
    ensures i <= |hosts|
    ensures i < |hosts| ==> hosts[i].name == name
    ensures forall j :: 0 <= j < i ==> hosts[j].name != name
  {
    if hosts == [] || hosts[0].name == name then 0 else 1 + IndexOfName(hosts[1..], name)
  }

  function RemoveAt(hosts: seq<Host>, i: nat): seq<Host> {
    if i < |hosts| then hosts[..i] + hosts[i + 1..] else hosts
  }

  function Delete(hosts: seq<Host>, section: SectionRef): seq<Host> {
    RemoveAt(hosts, if section.At? then section.index else IndexOfName(hosts, section.name))
  }

  /** `uci set dhcp.<tag>=tag`: a host section of that name stops being one. */
  function Retyped(hosts: seq<Host>, tag: string): seq<Host> {
    if hosts == [] then []
    else
      var (before, h) := (Retyped(hosts[..|hosts| - 1], tag), hosts[|hosts| - 1]);
      if h.name == tag then before else before + [h]
  }

  /** What a `set` on `dhcp.@host[-1]` does to that section. */
  function Updated(h: Host, c: Command): Host {
    match c
    case SetEnabled => h.(enabled := true)
    case SetMac(v) => h.(mac := v)
    case SetTag(v) => h.(tag := v)
    case SetTitle(v) => h.(title := v)
    case SetName(v) => h.(hostname := v)
    case SetIp(v) => h.(ip := v)
    case _ => h
  }

  function Step(hosts: seq<Host>, c: Command): seq<Host> {
    match c
    case Del(section) => Delete(hosts, section)
    case Commit => hosts
    case AddTag(tag) => Retyped(hosts, tag)
    case AddHost => hosts + [NEW_SECTION]
    case _ => if hosts == [] then [] else hosts[..|hosts| - 1] + [Updated(hosts[|hosts| - 1], c)]
  }

  /** The batch runs every command, also after one that fails. */
  function Exec(hosts: seq<Host>, commands: seq<Command>): seq<Host> {
    if commands == [] then hosts
    else Step(Exec(hosts, commands[..|commands| - 1]), commands[|commands| - 1])
  }

  // ----- reading the configuration -----

  function RefOf(hosts: seq<Host>, i: nat): SectionRef
    requires i < |hosts|
  {
    if hosts[i].name == "" then At(i) else Named(hosts[i].name)
  }

  /** The records of the first `n` sections; those without a MAC have none. */
  function Records(hosts: seq<Host>, n: nat): seq<HostRecord>
    requires n <= |hosts|
  {
    if n == 0 then []
    else
      var h := hosts[n - 1];
      var before := Records(hosts, n - 1);
      if h.mac == "" then before else before + [HostRecord(RefOf(hosts, n - 1), h.mac, h.ip)]
  }

  method BuildHostRecords(sections: seq<Host>) returns (hosts: seq<HostRecord>)
    ensures hosts == Records(sections, |sections|)
  {
    hosts := [];
    for i := 0 to |sections|
      invariant hosts == Records(sections, i)
    {
      var mac := sections[i].mac;
      if mac == "" {
        continue;
      }
      hosts := hosts + [HostRecord(RefOf(sections, i), mac, sections[i].ip)];
    }
  }

  lemma {:induction false} RecordsOf(hosts: seq<Host>, n: nat, r: HostRecord)
    requires n <= |hosts|
    ensures r in Records(hosts, n) <==>
              exists i :: 0 <= i < n && hosts[i].mac != ""
                          && r == HostRecord(RefOf(hosts, i), hosts[i].mac, hosts[i].ip)
  {
    if n > 0 {
      RecordsOf(hosts, n - 1, r);
    }
  }

  // ----- the planner -----

  method HasDuplicateIPConflict(input: Input, hosts: seq<HostRecord>) returns (r: bool)
    ensures r <==> input.action != "delete" && input.bindIp && input.ip != ""
                   && exists h :: h in hosts && h.mac != "" && h.mac != input.mac && h.ip == input.ip
  {
    if input.action == "delete" || !input.bindIp || input.ip == "" {
      return false;
    }
    for i := 0 to |hosts|
      invariant forall k :: 0 <= k < i ==> !(hosts[k].mac != "" && hosts[k].mac != input.mac && hosts[k].ip == input.ip)
    {
      if hosts[i].mac != "" && hosts[i].mac != input.mac && hosts[i].ip == input.ip {
        return true;
      }
    }
    return false;
  }

  function Deletions(hosts: seq<HostRecord>, mac: string): seq<Command> {
    if hosts == [] then []
    else
      var h := hosts[|hosts| - 1];
      var before := Deletions(hosts[..|hosts| - 1], mac);
      if h.mac == mac then before + [Del(h.section), Commit] else before
  }

  function With(commands: seq<Command>, present: bool, c: Command): seq<Command> {
    if present then commands + [c] else commands
  }

  /** The commands so far, and those that add the new section. */
  function Additions(commands: seq<Command>, input: Input): seq<Command> {
    var c0 := With(commands, input.autoTag && input.tagName != "", AddTag(input.tagName));
    var c1 := c0 + [AddHost, SetEnabled, SetMac(input.mac)];
    var c2 := With(c1, input.tagName != "", SetTag(input.tagName));
    var c3 := With(c2, input.tagTitle != "", SetTitle(input.tagTitle));
    var c4 := With(c3, input.hostname != "", SetName(input.hostname));
    With(c4, input.bindIp && input.ip != "", SetIp(input.ip))
  }

  function Commands(input: Input, hosts: seq<HostRecord>): seq<Command> {
    var deletions := Deletions(hosts, input.mac);
    if input.action == "delete" then deletions else Additions(deletions, input)
  }

  method BuildCommands(input: Input, hosts: seq<HostRecord>) returns (commands: seq<Command>)
    ensures commands == Commands(input, hosts)
  {
    commands := [];
    for i := 0 to |hosts|
      invariant commands == Deletions(hosts[..i], input.mac)
    {
      assert hosts[..i + 1][..i] == hosts[..i];
      if hosts[i].mac == input.mac {
        commands := commands + [Del(hosts[i].section), Commit];
      }
    }
    assert hosts[..|hosts|] == hosts;
    if input.action == "delete" {
      return;
    }
    if input.autoTag && input.tagName != "" {
      commands := commands + [AddTag(input.tagName)];
    }
    commands := commands + [AddHost, SetEnabled, SetMac(input.mac)];
    if input.tagName != "" {
      commands := commands + [SetTag(input.tagName)];
    }
    if input.tagTitle != "" {
      commands := commands + [SetTitle(input.tagTitle)];
    }
    if input.hostname != "" {
      commands := commands + [SetName(input.hostname)];
    }
    if input.bindIp && input.ip != "" {
      commands := commands + [SetIp(input.ip)];
    }
  }

  // ----- what a request is meant to do -----

  function Without(hosts: seq<Host>, mac: string): seq<Host> {
    if hosts == [] then []
    else
      var (before, h) := (Without(hosts[..|hosts| - 1], mac), hosts[|hosts| - 1]);
      if h.mac == mac then before else before + [h]
  }

  function NewHost(input: Input): Host {
    Host("", input.mac, if input.bindIp then input.ip else "", input.hostname, input.tagName, input.tagTitle, true)
  }

  /** The section of the MAC, if any, is replaced by what was asked for, and all others stay. */
  function Wanted(hosts: seq<Host>, input: Input): seq<Host> {
    Without(hosts, input.mac) + if input.action == "delete" then [] else [NewHost(input)]
  }

  /** The request makes a tag section of its own. */
  predicate MakesTag(input: Input) {
    input.action != "delete" && input.autoTag && input.tagName != ""
  }

  /** The tag section to be made has the name of another device's section, which it replaces. */
  predicate TagHitsAnother(hosts: seq<Host>, input: Input) {
    MakesTag(input) && exists h :: h in hosts && h.mac != input.mac && h.name == input.tagName
  }

  // ----- what the commands after the deletions do -----

  function Completed(left: seq<Host>, input: Input): seq<Host> {
    if input.action == "delete" then left
    else (if MakesTag(input) then Retyped(left, input.tagName) else left) + [NewHost(input)]
  }

  lemma ExecAdditions(hosts: seq<Host>, c: seq<Command>, input: Input)
    ensures Exec(hosts, Additions(c, input)) ==
              (if input.autoTag && input.tagName != "" then Retyped(Exec(hosts, c), input.tagName) else Exec(hosts, c))
              + [NewHost(input)]
  {
    hide Retyped, Exec, With, Step;
    var c0 := With(c, input.autoTag && input.tagName != "", AddTag(input.tagName));
    var c1 := c0 + [AddHost, SetEnabled, SetMac(input.mac)];
    var c2 := With(c1, input.tagName != "", SetTag(input.tagName));
    var c3 := With(c2, input.tagTitle != "", SetTitle(input.tagTitle));
    var c4 := With(c3, input.hostname != "", SetName(input.hostname));
    var base := Exec(hosts, c0);
    ExecWith(hosts, c, input.autoTag && input.tagName != "", AddTag(input.tagName));
    AddTagRetypes(Exec(hosts, c), input.tagName);
    ExecAddHost(hosts, c0, input.mac);
    var h1 := NEW_SECTION.(enabled := true, mac := input.mac);
    var h2 := ExecSet(hosts, c1, base, h1, input.tagName != "", SetTag(input.tagName));
    var h3 := ExecSet(hosts, c2, base, h2, input.tagTitle != "", SetTitle(input.tagTitle));
    var h4 := ExecSet(hosts, c3, base, h3, input.hostname != "", SetName(input.hostname));
    var h5 := ExecSet(hosts, c4, base, h4, input.bindIp && input.ip != "", SetIp(input.ip));
    assert h5 == NewHost(input);
  }

  lemma ExecWith(hosts: seq<Host>, commands: seq<Command>, present: bool, c: Command)
    ensures Exec(hosts, With(commands, present, c))
            == if present then Step(Exec(hosts, commands), c) else Exec(hosts, commands)
  {
    assert (commands + [c])[..|commands + [c]| - 1] == commands;
  }

  lemma AddTagRetypes(hosts: seq<Host>, tag: string)
    ensures Step(hosts, AddTag(tag)) == Retyped(hosts, tag)
  {
  }

  /** A `set` changes the last section only. */
  lemma ExecSet(hosts: seq<Host>, c: seq<Command>, base: seq<Host>, h: Host, present: bool, s: Command)
    returns (r: Host)
    requires Exec(hosts, c) == base + [h] && !s.Del? && !s.Commit? && !s.AddTag? && !s.AddHost?
    ensures r == (if present then Updated(h, s) else h) && Exec(hosts, With(c, present, s)) == base + [r]
  {
    hide Exec, With, Updated;
    r := if present then Updated(h, s) else h;
    ExecWith(hosts, c, present, s);
    assert (base + [h])[..|base|] == base;
  }

  lemma ExecAddHost(hosts: seq<Host>, c: seq<Command>, mac: string)
    ensures Exec(hosts, c + [AddHost, SetEnabled, SetMac(mac)])
            == Exec(hosts, c) + [NEW_SECTION.(enabled := true, mac := mac)]
  {
    hide Exec;
    ExecWith(hosts, c, true, AddHost);
    ExecWith(hosts, c + [AddHost], true, SetEnabled);
    ExecWith(hosts, c + [AddHost] + [SetEnabled], true, SetMac(mac));
    assert c + [AddHost, SetEnabled, SetMac(mac)] == c + [AddHost] + [SetEnabled] + [SetMac(mac)];
  }

  // ----- when positional names shift -----

  /** Named sections have names of their own. */
  predicate NamesUnique(hosts: seq<Host>) {
    forall i, j :: 0 <= i < j < |hosts| && hosts[i].name != "" ==> hosts[i].name != hosts[j].name
  }

  /** Of the sections with this MAC, all but the first have a name. */
  predicate LaterMatchesNamed(hosts: seq<Host>, mac: string) {
    forall i, j :: 0 <= i < j < |hosts| && hosts[i].mac == mac && hosts[j].mac == mac ==> hosts[j].name != ""
  }

  /** The configuration after the deletions of the first `k` sections were carried out. */
  function AfterDeletions(hosts: seq<Host>, mac: string, k: nat): seq<Host>
    requires k <= |hosts|
  {
    Exec(hosts, Deletions(Records(hosts, k), mac))
  }

  lemma DeletionStep(hosts: seq<Host>, mac: string, k: nat)
    requires k < |hosts| && mac != ""
    ensures AfterDeletions(hosts, mac, k + 1) ==
      var before := AfterDeletions(hosts, mac, k);
      if hosts[k].mac == mac then Delete(before, RefOf(hosts, k)) else before
  {
    hide Delete, RefOf;
    var before := Records(hosts, k);
    if hosts[k].mac != "" {
      var r := HostRecord(RefOf(hosts, k), hosts[k].mac, hosts[k].ip);
      assert (before + [r])[..|before + [r]| - 1] == before;
      if hosts[k].mac == mac {
        var d := Deletions(before, mac);
        assert d + [Del(r.section), Commit] == d + [Del(r.section)] + [Commit];
        ExecWith(hosts, d, true, Del(r.section));
        ExecWith(hosts, d + [Del(r.section)], true, Commit);
      }
    }
  }

  lemma {:induction false} WithoutFacts(hosts: seq<Host>, mac: string)
    ensures |Without(hosts, mac)| <= |hosts|
    ensures forall h :: h in Without(hosts, mac) <==> h in hosts && h.mac != mac
    ensures (forall h :: h in hosts ==> h.mac != mac) ==> Without(hosts, mac) == hosts
    ensures (exists h :: h in hosts && h.mac == mac) ==> |Without(hosts, mac)| < |hosts|
  {
    if hosts != [] {
      var n := |hosts| - 1;
      assert hosts == hosts[..n] + [hosts[n]];
      WithoutFacts(hosts[..n], mac);
    }
  }

  /** A deletion by place is still right if nothing was deleted before it, and one by name
      always is. */
  lemma {:induction false} DeletionsFromTheFront(hosts: seq<Host>, mac: string, k: nat)
    requires k <= |hosts| && mac != "" && NamesUnique(hosts) && LaterMatchesNamed(hosts[..k], mac)
    ensures AfterDeletions(hosts, mac, k) == Without(hosts[..k], mac) + hosts[k..]
  {
    hide NamesUnique, LaterMatchesNamed, RefOf, Delete;
    if k == 0 {
      assert Without(hosts[..0], mac) + hosts[0..] == hosts;
    } else {
      hide AfterDeletions;
      var n := k - 1;
      PrefixNamed(hosts, mac, n);
      DeletionsFromTheFront(hosts, mac, n);
      DeletionStep(hosts, mac, n);
      var kept := Without(hosts[..n], mac);
      assert hosts[..k][..n] == hosts[..n];
      TakeOne(kept, hosts[n..]);
      if hosts[n].mac == mac {
        RightOneDeleted(hosts, mac, n, kept);
      }
    }
  }

  lemma PrefixNamed(hosts: seq<Host>, mac: string, n: nat)
    requires n < |hosts| && LaterMatchesNamed(hosts[..n + 1], mac)
    ensures LaterMatchesNamed(hosts[..n], mac)
  {
    assert forall i :: 0 <= i < n ==> hosts[..n][i] == hosts[..n + 1][i];
  }

  lemma TakeOne(kept: seq<Host>, rest: seq<Host>)
    requires rest != []
    ensures kept + rest == kept + [rest[0]] + rest[1..]
    ensures RemoveAt(kept + rest, |kept|) == kept + rest[1..]
  {
  }

  lemma RightOneDeleted(hosts: seq<Host>, mac: string, n: nat, kept: seq<Host>)
    requires n < |hosts| && hosts[n].mac == mac && NamesUnique(hosts) && LaterMatchesNamed(hosts[..n + 1], mac)
    requires kept == Without(hosts[..n], mac)
    ensures Delete(kept + hosts[n..], RefOf(hosts, n)) == RemoveAt(kept + hosts[n..], |kept|)
  {
    hide Without, RemoveAt, NamesUnique, LaterMatchesNamed;
    if hosts[n].name == "" {
      NoMatchBefore(hosts, mac, n);
    } else {
      NoNamesakeBefore(hosts, mac, n);
      assert (kept + hosts[n..])[|kept|] == hosts[n];
    }
  }

  lemma NoMatchBefore(hosts: seq<Host>, mac: string, n: nat)
    requires n < |hosts| && hosts[n].mac == mac && hosts[n].name == "" && LaterMatchesNamed(hosts[..n + 1], mac)
    ensures Without(hosts[..n], mac) == hosts[..n]
  {
    WithoutFacts(hosts[..n], mac);
    forall h | h in hosts[..n]
      ensures h.mac != mac
    {
      var i :| 0 <= i < n && hosts[i] == h;
      assert hosts[..n + 1][i] == h && hosts[..n + 1][n] == hosts[n];
    }
  }

  lemma NoNamesakeBefore(hosts: seq<Host>, mac: string, n: nat)
    requires n < |hosts| && hosts[n].name != "" && NamesUnique(hosts)
    ensures forall h :: h in Without(hosts[..n], mac) ==> h.name != hosts[n].name
  {
    WithoutFacts(hosts[..n], mac);
    forall h | h in hosts[..n]
      ensures h.name != hosts[n].name
    {
      var i :| 0 <= i < n && hosts[i] == h;
    }
  }

  /** A section reached by place after one deletion is passed over, and stays. */
  lemma {:induction false} PassedOver(hosts: seq<Host>, mac: string, j: nat, k: nat) returns (p: nat)
    requires j < k <= |hosts| && mac != "" && NamesUnique(hosts)
    requires hosts[j].mac == mac && hosts[j].name == "" && LaterMatchesNamed(hosts[..j], mac)
    requires exists i :: 0 <= i < j && hosts[i].mac == mac
    ensures p < j && p < |AfterDeletions(hosts, mac, k)| && AfterDeletions(hosts, mac, k)[p] == hosts[j]
  {
    hide AfterDeletions, NamesUnique, LaterMatchesNamed, Without;
    DeletionStep(hosts, mac, k - 1);
    if k == j + 1 {
      DeletionsFromTheFront(hosts, mac, j);
      WithoutFacts(hosts[..j], mac);
      var i :| 0 <= i < j && hosts[i].mac == mac;
      assert hosts[i] in hosts[..j];
      p := |Without(hosts[..j], mac)|;
    } else {
      p := PassedOver(hosts, mac, j, k - 1);
      var now := AfterDeletions(hosts, mac, k - 1);
      if hosts[k - 1].mac == mac && hosts[k - 1].name != "" && IndexOfName(now, hosts[k - 1].name) < p {
        p := p - 1;
      }
    }
  }

  lemma {:induction false} FirstLateMatch(hosts: seq<Host>, mac: string, n: nat) returns (j: nat)
    requires n <= |hosts| && !LaterMatchesNamed(hosts[..n], mac)
    ensures j < n && hosts[j].mac == mac && hosts[j].name == "" && LaterMatchesNamed(hosts[..j], mac)
    ensures exists i :: 0 <= i < j && hosts[i].mac == mac
  {
    if !LaterMatchesNamed(hosts[..n - 1], mac) {
      j := FirstLateMatch(hosts, mac, n - 1);
    } else {
      j := n - 1;
      var i, k :| 0 <= i < k < n && hosts[..n][i].mac == mac && hosts[..n][k].mac == mac && hosts[..n][k].name == "";
      assert forall a :: 0 <= a < j ==> hosts[..j][a] == hosts[a];
      assert k == j && hosts[i].mac == mac;
    }
  }

  lemma {:induction false} RetypedFacts(hosts: seq<Host>, tag: string)
    ensures forall h :: h in Retyped(hosts, tag) <==> h in hosts && h.name != tag
    ensures Retyped(hosts, tag) == hosts <==> forall h :: h in hosts ==> h.name != tag
    ensures |Retyped(hosts, tag)| <= |hosts|
  {
    if hosts != [] {
      var n := |hosts| - 1;
      assert hosts == hosts[..n] + [hosts[n]];
      RetypedFacts(hosts[..n], tag);
      assert forall h :: h in Retyped(hosts, tag) ==> h.name != tag;
    }
  }

  lemma PlanCompletes(hosts: seq<Host>, input: Input)
    ensures Exec(hosts, Commands(input, Records(hosts, |hosts|)))
            == Completed(AfterDeletions(hosts, input.mac, |hosts|), input)
  {
    hide Additions, NewHost, Exec, Retyped, Deletions, Records;
    ExecAdditions(hosts, Deletions(Records(hosts, |hosts|), input.mac), input);
  }

  /** What is left of a section without a name spoils the result. */
  lemma LeftoverSpoils(left: seq<Host>, kept: seq<Host>, input: Input, h: Host)
    requires h in left && h !in kept && h.name == ""
    ensures Completed(left, input) != kept + if input.action == "delete" then [] else [NewHost(input)]
  {
    hide NewHost;
    assert kept + [] == kept;
    RetypedFacts(left, input.tagName);
    PrefixesDiffer(if MakesTag(input) then Retyped(left, input.tagName) else left, kept, NewHost(input), h);
  }

  /** Once only the section of the MAC was deleted, the rest is right unless the tag hits another. */
  lemma CompletedIsWantedIff(hosts: seq<Host>, input: Input)
    ensures Completed(Without(hosts, input.mac), input) == Wanted(hosts, input) <==> !TagHitsAnother(hosts, input)
  {
    hide NewHost, Without, Retyped;
    var kept := Without(hosts, input.mac);
    WithoutFacts(hosts, input.mac);
    RetypedFacts(kept, input.tagName);
    assert kept + [] == kept;
    if MakesTag(input) && Retyped(kept, input.tagName) != kept {
      var (x, y) := (Retyped(kept, input.tagName) + [NewHost(input)], kept + [NewHost(input)]);
      assert x[..|x| - 1] == Retyped(kept, input.tagName) && y[..|y| - 1] == kept;
    }
  }

  /** The commands delete exactly the sections with the MAC and add the one asked for, if and
      only if every such section but the first has a name and no other device's section has the
      name of the tag to be made. */
  lemma PlanIsRightIff(hosts: seq<Host>, input: Input)
    requires input.mac != "" && NamesUnique(hosts)
    ensures Exec(hosts, Commands(input, Records(hosts, |hosts|))) == Wanted(hosts, input)
            <==> LaterMatchesNamed(hosts, input.mac) && !TagHitsAnother(hosts, input)
    ensures LaterMatchesNamed(hosts, input.mac) ==>
              Exec(hosts, Commands(input, Records(hosts, |hosts|))) == Completed(Without(hosts, input.mac), input)
  {
    hide NamesUnique, LaterMatchesNamed, Without, Completed, AfterDeletions, Exec, Commands, Records, TagHitsAnother;
    var (n, mac) := (|hosts|, input.mac);
    PlanCompletes(hosts, input);
    assert hosts[..n] == hosts;
    if LaterMatchesNamed(hosts, mac) {
      DeletionsFromTheFront(hosts, mac, n);
      assert Without(hosts, mac) + hosts[n..] == Without(hosts, mac);
      CompletedIsWantedIff(hosts, input);
    } else {
      var j := FirstLateMatch(hosts, mac, n);
      var p := PassedOver(hosts, mac, j, n);
      WithoutFacts(hosts, mac);
      LeftoverSpoils(AfterDeletions(hosts, mac, n), Without(hosts, mac), input, hosts[j]);
    }
  }

  lemma PrefixesDiffer(a: seq<Host>, b: seq<Host>, last: Host, h: Host)
    requires h in a && h !in b
    ensures a + [last] != b + [last]
  {
    var (x, y) := (a + [last], b + [last]);
    assert x[..|x| - 1] == a && y[..|y| - 1] == b;
  }

  /** Two unnamed sections share a MAC: deleting it removes the section of another device. */
  lemma WrongSectionDeleted()
    ensures var (a, b) := (NEW_SECTION.(mac := "a"), NEW_SECTION.(mac := "b"));
            var input := Input("delete", "a", "", false, "", "", "", false);
            Exec([a, a, b], Commands(input, Records([a, a, b], 3))) == [a] && Wanted([a, a, b], input) == [b]
  {
    var (a, b) := (NEW_SECTION.(mac := "a"), NEW_SECTION.(mac := "b"));
    var hosts := [a, a, b];
    DeletionStep(hosts, "a", 0);
    assert RemoveAt(hosts, 0) == [a, b];
    DeletionStep(hosts, "a", 1);
    assert RemoveAt([a, b], 1) == [a];
    DeletionStep(hosts, "a", 2);
    assert AfterDeletions(hosts, "a", 0) == hosts;
    assert hosts[..2] == [a, a] && hosts[..2][..1] == [a];
    assert Without([a], "a") == [];
    assert Without([a, a], "a") == [];
  }

  /** Device b has a section named like the automatic tag that comes with a request for device
      a. Nothing else is wrong, and yet both old sections are gone and only a's new one is there. */
  lemma AutoTagTakesAnothersSection()
    ensures var (a, b) := (NEW_SECTION.(mac := "a"), NEW_SECTION.(mac := "b", name := "t_auto_c0a80901"));
            var input := Input("add", "a", "", false, "", "t_auto_c0a80901", "bypass", true);
            && NamesUnique([a, b]) && LeasesUnique([a, b]) && LaterMatchesNamed([a, b], "a")
            && Stored([a, b], input) == (Ok, [NewHost(input)])
            && Wanted([a, b], input) == [b, NewHost(input)]
  {
    hide Exec, Commands, Records, Without, Retyped, NewHost;
    var (a, b) := (NEW_SECTION.(mac := "a"), NEW_SECTION.(mac := "b", name := "t_auto_c0a80901"));
    var input := Input("add", "a", "", false, "", "t_auto_c0a80901", "bypass", true);
    OneOfTwo(a, b);
    OnlyOne(b);
    PlanIsRightIff([a, b], input);
    CommandsOfAdd(input, Records([a, b], 2));
    assert [] + [NewHost(input)] == [NewHost(input)] && [b] + [NewHost(input)] == [b, NewHost(input)];
  }

  lemma OneOfTwo(a: Host, b: Host)
    requires a.mac != b.mac
    ensures Without([a, b], a.mac) == [b]
  {
    assert [a, b][..1] == [a] && [a][..0] == [];
    assert Without([a], a.mac) == [];
  }

  lemma OnlyOne(b: Host)
    ensures Retyped([b], b.name) == []
  {
    assert [b][..0] == [];
  }

  lemma CommandsOfAdd(input: Input, records: seq<HostRecord>)
    requires input.action != "delete"
    ensures Commands(input, records) != []
  {
    hide Deletions;
  }

  // ----- requests, and runs of them -----

  /** Among the sections with a MAC, no MAC and no bound address occurs twice. */
  predicate LeasesUnique(hosts: seq<Host>) {
    forall i, j :: 0 <= i < j < |hosts| && hosts[i].mac != "" && hosts[j].mac != "" ==>
      hosts[i].mac != hosts[j].mac && (hosts[i].ip != "" ==> hosts[i].ip != hosts[j].ip)
  }

  predicate IpTaken(hosts: seq<Host>, input: Input) {
    exists i :: 0 <= i < |hosts| && hosts[i].mac != "" && hosts[i].mac != input.mac && hosts[i].ip == input.ip
  }

  /** The store's whole effect. */
  function Stored(hosts: seq<Host>, input: Input): (Outcome, seq<Host>) {
    var commands := Commands(input, Records(hosts, |hosts|));
    if input.action != "delete" && input.bindIp && input.ip != "" && IpTaken(hosts, input) then (IpInUse, hosts)
    else if commands == [] then (EmptyCommands, hosts)
    else (Ok, Exec(hosts, commands))
  }

  /** The tag validator, given the tags there are, or nothing when they cannot be read. */
  function NormalizeTag(input: Input, tags: Option<seq<Tag>>): Option<Input>
    decreases if tags.None? then 0 else |tags.value|
  {
    if input.tagName == "" then Some(input)
    else if tags.None? || tags.value == [] then None
    else
      var t := tags.value[0];
      if t.name != input.tagName then NormalizeTag(input, Some(tags.value[1..]))
      else
        var titled := input.(tagTitle := t.title);
        if t.title == "default" then Some(titled.(tagName := ""))
        else Some(titled.(autoTag := input.autoTag || t.autoCreated))
  }

  predicate IsSpace(c: char) {
    c in {' ', '\t', '\n', '\r', 11 as char, 12 as char}
  }

  predicate IsBlank(s: string) {
    forall i :: 0 <= i < |s| ==> IsSpace(s[i])
  }

  predicate IsNoOpAdd(input: Input) {
    input.action == "add" && input.tagName == "" && input.tagTitle == "" && input.hostname == "" && input.ip == ""
  }

  function Normalized(input: Input, tags: Option<seq<Tag>>): Option<Input> {
    NormalizeTag(if input.action == "modify" then input.(action := "add") else input, tags)
  }

  /** A request's whole effect. */
  function Requested(hosts: seq<Host>, input: Input, tags: Option<seq<Tag>>): (Outcome, seq<Host>) {
    if IsBlank(input.mac) then (MacRequired, hosts)
    else if input.action !in {"add", "modify", "delete"} then (InvalidAction, hosts)
    else if IsNoOpAdd(input) then (Ok, hosts)
    else
      match Normalized(input, tags)
      case None => (TagNotFound, hosts)
      case Some(normalized) => Stored(hosts, normalized)
  }

  lemma {:induction false} NormalizeKeeps(input: Input, tags: Option<seq<Tag>>)
    decreases if tags.None? then 0 else |tags.value|
    ensures var r := NormalizeTag(input, tags);
            r.Some? ==>
              var v := r.value;
              v == input.(tagName := v.tagName, tagTitle := v.tagTitle, autoTag := v.autoTag)
  {
    if input.tagName != "" && tags.Some? && tags.value != [] && tags.value[0].name != input.tagName {
      NormalizeKeeps(input, Some(tags.value[1..]));
    }
  }

  predicate NoTagNamed(tags: Option<seq<Tag>>, name: string) {
    tags == None || forall t :: t in tags.value ==> t.name != name
  }

  predicate IsFirst(tags: seq<Tag>, name: string, i: int) {
    0 <= i < |tags| && tags[i].name == name && forall j :: 0 <= j < i ==> tags[j].name != name
  }

  /** The tag that comes out: without a name the request stays as it is; otherwise the first tag of
      that name gives its title, the name is dropped if the title is "default", and an automatic
      tag is marked to be made. Without such a tag there is no result. */
  lemma {:induction false} TagChosen(input: Input, tags: Option<seq<Tag>>)
    decreases if tags.None? then 0 else |tags.value|
    ensures var r := NormalizeTag(input, tags);
            && (input.tagName == "" ==> r == Some(input))
            && (r == None <==> input.tagName != "" && NoTagNamed(tags, input.tagName))
            && (input.tagName != "" && tags.Some? ==>
                  forall i :: IsFirst(tags.value, input.tagName, i) ==>
                    var t := tags.value[i];
                    && r.Some? && r.value.tagTitle == t.title
                    && r.value.tagName == (if t.title == "default" then "" else input.tagName)
                    && (r.value.autoTag <==> input.autoTag || (t.autoCreated && t.title != "default")))
  {
    if input.tagName != "" && tags.Some? && tags.value != [] && tags.value[0].name != input.tagName {
      hide IsFirst;
      var rest := tags.value[1..];
      TagChosen(input, Some(rest));
      assert tags.value == [tags.value[0]] + rest;
      forall i | IsFirst(tags.value, input.tagName, i)
        ensures 0 < i < |tags.value| && rest[i - 1] == tags.value[i] && IsFirst(rest, input.tagName, i - 1)
      {
        FirstInRest(tags.value, input.tagName, i);
      }
    } else if input.tagName != "" && tags.Some? && tags.value != [] {
      forall i | IsFirst(tags.value, input.tagName, i)
        ensures i == 0
      {
      }
    }
  }

  lemma FirstInRest(tags: seq<Tag>, name: string, i: int)
    requires IsFirst(tags, name, i) && tags[0].name != name
    ensures i > 0 && IsFirst(tags[1..], name, i - 1)
  {
    assert forall j :: 0 <= j < i - 1 ==> tags[1..][j] == tags[j + 1];
  }

  /** What becomes of a request before it is stored: it needs a MAC that is not all white space and a
      known action; an add of nothing but a MAC is passed over, and a modify of the same is not; the
      tag must exist. All others are stored with their own MAC, address, binding and host name, a
      modify as an add. */
  lemma RequestOutcomes(hosts: seq<Host>, input: Input, tags: Option<seq<Tag>>)
    ensures var result := Requested(hosts, input, tags);
            var blank := forall c :: c in input.mac ==> c in {' ', '\t', '\n', 11 as char, 12 as char, '\r'};
            var known := input.action == "add" || input.action == "modify" || input.action == "delete";
            var nothing := input.action == "add" && input.tagName == "" && input.tagTitle == ""
                           && input.hostname == "" && input.ip == "";
            if blank then result == (MacRequired, hosts)
            else if !known then result == (InvalidAction, hosts)
            else if nothing then result == (Ok, hosts)
            else if input.tagName != "" && NoTagNamed(tags, input.tagName) then result == (TagNotFound, hosts)
            else
              && Normalized(input, tags).Some?
              && var n := Normalized(input, tags).value;
                 && n.action == (if input.action == "delete" then "delete" else "add")
                 && (n.mac, n.ip, n.bindIp, n.hostname) == (input.mac, input.ip, input.bindIp, input.hostname)
                 && result == Stored(hosts, n)
  {
    hide NormalizeTag, Stored;
    var planned := if input.action == "modify" then input.(action := "add") else input;
    TagChosen(planned, tags);
    NormalizeKeeps(planned, tags);
    assert IsBlank(input.mac) <==> forall c :: c in input.mac ==> IsSpace(c);
  }

  /** A stored request is refused exactly when it binds an address that another MAC has, and comes to
      nothing exactly when it deletes a MAC that no section has. */
  lemma StoredOutcomes(hosts: seq<Host>, input: Input)
    ensures var outcome := Stored(hosts, input).0;
            var taken := input.action != "delete" && input.bindIp && input.ip != ""
                         && exists h :: h in hosts && h.mac != "" && h.mac != input.mac && h.ip == input.ip;
            var idle := input.action == "delete" && forall h :: h in hosts && h.mac != "" ==> h.mac != input.mac;
            && (outcome == IpInUse <==> taken) && (outcome == EmptyCommands <==> idle)
            && (outcome == Ok <==> !taken && !idle)
  {
    hide Additions, Records, Deletions;
    if exists h :: h in hosts && h.mac != "" && h.mac != input.mac && h.ip == input.ip {
      var h :| h in hosts && h.mac != "" && h.mac != input.mac && h.ip == input.ip;
      var i :| 0 <= i < |hosts| && hosts[i] == h;
    }
    AdditionsAddSome(Deletions(Records(hosts, |hosts|), input.mac), input);
    DeletesNothingIff(hosts, input.mac, |hosts|);
  }

  lemma AdditionsAddSome(c: seq<Command>, input: Input)
    ensures Additions(c, input) != []
  {
  }

  lemma {:induction false} DeletesNothingIff(hosts: seq<Host>, mac: string, n: nat)
    requires n <= |hosts|
    ensures Deletions(Records(hosts, n), mac) == [] <==> forall h :: h in hosts[..n] && h.mac != "" ==> h.mac != mac
  {
    if n > 0 {
      DeletesNothingIff(hosts, mac, n - 1);
      assert hosts[..n] == hosts[..n - 1] + [hosts[n - 1]];
      var before := Records(hosts, n - 1);
      if hosts[n - 1].mac != "" {
        var r := HostRecord(RefOf(hosts, n - 1), hosts[n - 1].mac, hosts[n - 1].ip);
        assert (before + [r])[..|before + [r]| - 1] == before;
      }
    }
  }

  /** Each deletion has its commit right behind it. */
  predicate AllCommitted(c: seq<Command>) {
    forall i :: 0 <= i < |c| && c[i].Del? ==> i + 1 < |c| && c[i + 1] == Commit
  }

  lemma {:induction false} DeletionsAreCommitted(records: seq<HostRecord>, mac: string)
    ensures AllCommitted(Deletions(records, mac))
  {
    if records != [] {
      var (before, h) := (records[..|records| - 1], records[|records| - 1]);
      DeletionsAreCommitted(before, mac);
      var c := Deletions(before, mac);
      OneMoreDeletion(c, h.section);
    }
  }

  lemma OneMoreDeletion(c: seq<Command>, section: SectionRef)
    requires AllCommitted(c)
    ensures AllCommitted(c + [Del(section), Commit])
  {
    var all := c + [Del(section), Commit];
    forall i | 0 <= i < |all| && all[i].Del?
      ensures i + 1 < |all| && all[i + 1] == Commit
    {
      if i < |c| {
        assert all[i] == c[i] && all[i + 1] == c[i + 1];
      }
    }
  }

  lemma {:induction false} WithoutKeepsUnique(hosts: seq<Host>, mac: string)
    requires LeasesUnique(hosts) && NamesUnique(hosts)
    ensures LeasesUnique(Without(hosts, mac)) && NamesUnique(Without(hosts, mac))
  {
    if hosts != [] {
      var n := |hosts| - 1;
      WithoutKeepsUnique(hosts[..n], mac);
      WithoutFacts(hosts[..n], mac);
      SnocKeepsUnique(hosts, n, Without(hosts[..n], mac));
    }
  }

  lemma {:induction false} RetypedKeepsUnique(hosts: seq<Host>, tag: string)
    requires LeasesUnique(hosts) && NamesUnique(hosts)
    ensures LeasesUnique(Retyped(hosts, tag)) && NamesUnique(Retyped(hosts, tag))
  {
    if hosts != [] {
      var n := |hosts| - 1;
      RetypedKeepsUnique(hosts[..n], tag);
      RetypedFacts(hosts[..n], tag);
      SnocKeepsUnique(hosts, n, Retyped(hosts[..n], tag));
    }
  }

  lemma SnocKeepsUnique(hosts: seq<Host>, n: nat, kept: seq<Host>)
    requires |hosts| == n + 1 && LeasesUnique(hosts) && NamesUnique(hosts)
    requires LeasesUnique(kept) && NamesUnique(kept)
    requires forall h :: h in kept ==> h in hosts[..n]
    ensures LeasesUnique(kept + [hosts[n]]) && NamesUnique(kept + [hosts[n]])
  {
    var all := kept + [hosts[n]];
    forall i | 0 <= i < |kept|
      ensures exists k :: 0 <= k < n && kept[i] == hosts[k]
    {
      assert kept[i] in hosts[..n];
    }
    forall i, j | 0 <= i < j < |all|
      ensures all[i].name != "" ==> all[i].name != all[j].name
      ensures all[i].mac != "" && all[j].mac != "" ==>
                all[i].mac != all[j].mac && (all[i].ip != "" ==> all[i].ip != all[j].ip)
    {
    }
  }

  /** Two sections of unique leases never match, so at most one is deleted. */
  lemma UniqueMeansNoLaterMatch(hosts: seq<Host>, mac: string)
    requires LeasesUnique(hosts) && mac != ""
    ensures LaterMatchesNamed(hosts, mac)
    ensures |hosts| - 1 <= |Without(hosts, mac)|
  {
    OneMatchAtMost(hosts, mac);
  }

  lemma {:induction false} OneMatchAtMost(hosts: seq<Host>, mac: string)
    requires LeasesUnique(hosts) && mac != ""
    ensures |hosts| - 1 <= |Without(hosts, mac)|
  {
    if hosts != [] {
      var n := |hosts| - 1;
      OneMatchAtMost(hosts[..n], mac);
      WithoutFacts(hosts[..n], mac);
      if hosts[n].mac == mac {
        assert forall h :: h in hosts[..n] ==> h.mac != mac;
      }
    }
  }

  lemma AddKeepsUnique(hosts: seq<Host>, h: Host)
    requires LeasesUnique(hosts) && NamesUnique(hosts) && h.name == ""
    requires forall x :: x in hosts && x.mac != "" ==> x.mac != h.mac && (h.ip != "" ==> x.ip != h.ip)
    ensures LeasesUnique(hosts + [h]) && NamesUnique(hosts + [h])
  {
    forall i | 0 <= i < |hosts| && hosts[i].mac != ""
      ensures hosts[i].mac != h.mac && (h.ip != "" ==> hosts[i].ip != h.ip)
    {
      assert hosts[i] in hosts;
    }
  }

  lemma CompletedKeepsUnique(hosts: seq<Host>, input: Input)
    requires LeasesUnique(hosts) && NamesUnique(hosts)
    requires input.action != "delete" && input.bindIp && input.ip != "" ==> !IpTaken(hosts, input)
    ensures var after := Completed(Without(hosts, input.mac), input);
            LeasesUnique(after) && NamesUnique(after)
  {
    hide LeasesUnique, NamesUnique, Without, Retyped;
    var kept := Without(hosts, input.mac);
    WithoutKeepsUnique(hosts, input.mac);
    WithoutFacts(hosts, input.mac);
    if input.action != "delete" {
      forall x | x in kept && x.mac != ""
        ensures x.mac != input.mac && (NewHost(input).ip != "" ==> x.ip != NewHost(input).ip)
      {
        var i :| 0 <= i < |hosts| && hosts[i] == x;
      }
      RetypedKeepsUnique(kept, input.tagName);
      RetypedFacts(kept, input.tagName);
      AddKeepsUnique(if MakesTag(input) then Retyped(kept, input.tagName) else kept, NewHost(input));
    }
  }

  /** What the store makes of unique leases: on an error nothing changes; otherwise all other
      devices' sections stay, except one that has the name of a tag to be made, and the result
      is what was asked for exactly when there is none. */
  lemma StoredKeepsUnique(hosts: seq<Host>, input: Input)
    requires LeasesUnique(hosts) && NamesUnique(hosts) && input.mac != ""
    ensures var (outcome, after) := Stored(hosts, input);
            && LeasesUnique(after) && NamesUnique(after)
            && (outcome != Ok ==> after == hosts)
            && (outcome == Ok ==>
                  && after == Completed(Without(hosts, input.mac), input)
                  && (after == Wanted(hosts, input) <==> !TagHitsAnother(hosts, input)))
  {
    hide LeasesUnique, NamesUnique, Wanted, Completed, Commands, Records, Exec, TagHitsAnother, Without;
    UniqueMeansNoLaterMatch(hosts, input.mac);
    PlanIsRightIff(hosts, input);
    if !(input.action != "delete" && input.bindIp && input.ip != "" && IpTaken(hosts, input)) {
      CompletedKeepsUnique(hosts, input);
    }
  }

  /** The other devices' sections after an accepted request. */
  lemma OthersStay(hosts: seq<Host>, input: Input)
    ensures var after := Completed(Without(hosts, input.mac), input);
            forall h :: h in hosts && h.mac != input.mac ==>
              (h in after <==> !(MakesTag(input) && h.name == input.tagName))
  {
    hide Without, Retyped;
    WithoutFacts(hosts, input.mac);
    RetypedFacts(Without(hosts, input.mac), input.tagName);
  }

  datatype Request = Request(input: Input, tags: Option<seq<Tag>>)

  /** Every configuration that a sequence of requests leads through. */
  function Run(hosts: seq<Host>, requests: seq<Request>): seq<Host> {
    if requests == [] then hosts
    else
      var last := requests[|requests| - 1];
      Requested(Run(hosts, requests[..|requests| - 1]), last.input, last.tags).1
  }

  /** What one request does to the configuration, when it changes it. */
  ghost predicate Takes(before: seq<Host>, after: seq<Host>, input: Input) {
    && (after == Wanted(before, input) <==> !TagHitsAnother(before, input))
    && |before| - 1 <= |Without(before, input.mac)|
    && forall h :: h in before && h.mac != input.mac ==>
         (h in after <==> !(MakesTag(input) && h.name == input.tagName))
  }

  /** Over every sequence of requests MACs and bound addresses stay unique. A request that is not
      accepted changes nothing. One that is does exactly what was asked for, deleting at most
      one section, if and only if no other device's section has the name of the tag to be made;
      in any case no other section than that one is lost besides. */
  lemma {:induction false} EveryRunKeepsLeasesUnique(hosts: seq<Host>, requests: seq<Request>)
    requires LeasesUnique(hosts) && NamesUnique(hosts)
    ensures LeasesUnique(Run(hosts, requests)) && NamesUnique(Run(hosts, requests))
    ensures requests != [] ==>
              var r := requests[|requests| - 1];
              var (before, after) := (Run(hosts, requests[..|requests| - 1]), Run(hosts, requests));
              if Requested(before, r.input, r.tags).0 == Ok && !IsNoOpAdd(r.input) then
                var normalized := Normalized(r.input, r.tags);
                normalized.Some? && normalized.value.mac == r.input.mac && Takes(before, after, normalized.value)
              else
                after == before
  {
    hide LeasesUnique, NamesUnique, Wanted, Completed, Stored, Without, NormalizeTag, TagHitsAnother;
    if requests != [] {
      var r := requests[|requests| - 1];
      var before := Run(hosts, requests[..|requests| - 1]);
      EveryRunKeepsLeasesUnique(hosts, requests[..|requests| - 1]);
      var planned := if r.input.action == "modify" then r.input.(action := "add") else r.input;
      NormalizeKeeps(planned, r.tags);
      var normalized := Normalized(r.input, r.tags);
      if normalized.Some? && !IsBlank(r.input.mac) {
        StoredKeepsUnique(before, normalized.value);
        UniqueMeansNoLaterMatch(before, r.input.mac);
        OthersStay(before, normalized.value);
      }
    }
  }

  /** An accepted request is what the configuration then says: the device has exactly one
      section and it carries the address asked for, or no section after a delete. */
  lemma AcceptedIsInForce(hosts: seq<Host>, input: Input)
    requires LeasesUnique(hosts) && NamesUnique(hosts) && input.mac != "" && Stored(hosts, input).0 == Ok
    ensures var after := Stored(hosts, input).1;
            forall h :: h in after && h.mac == input.mac <==>
              input.action != "delete"
              && h == Host("", input.mac, if input.bindIp then input.ip else "", input.hostname,
                           input.tagName, input.tagTitle, true)
  {
    hide LeasesUnique, NamesUnique, Stored, Without, Retyped;
    StoredKeepsUnique(hosts, input);
    WithoutFacts(hosts, input.mac);
    RetypedFacts(Without(hosts, input.mac), input.tagName);
  }

  // ----- the store -----

  lemma {:induction false} TakenInRecords(hosts: seq<Host>, input: Input)
    ensures IpTaken(hosts, input) <==>
            exists h :: h in Records(hosts, |hosts|) && h.mac != "" && h.mac != input.mac && h.ip == input.ip
  {
    hide Records;
    forall r: HostRecord
      ensures r in Records(hosts, |hosts|) <==>
              exists i :: 0 <= i < |hosts| && hosts[i].mac != ""
                          && r == HostRecord(RefOf(hosts, i), hosts[i].mac, hosts[i].ip)
    {
      RecordsOf(hosts, |hosts|, r);
    }
    if IpTaken(hosts, input) {
      var i :| 0 <= i < |hosts| && hosts[i].mac != "" && hosts[i].mac != input.mac && hosts[i].ip == input.ip;
      assert HostRecord(RefOf(hosts, i), hosts[i].mac, hosts[i].ip) in Records(hosts, |hosts|);
    }
  }

  class Store {
    /** The `host` sections of the `dhcp` configuration. */
    var hosts: seq<Host>

    method BatchRun(commands: seq<Command>) returns (ok: bool)
      modifies this
      ensures ok <==> commands != []
      ensures hosts == Exec(old(hosts), commands)
      ensures !ok ==> hosts == old(hosts)
    {
      if commands == [] {
        return false;
      }
      for i := 0 to |commands|
        invariant hosts == Exec(old(hosts), commands[..i])
      {
        assert commands[..i + 1][..i] == commands[..i];
        hosts := Step(hosts, commands[i]);
      }
      assert commands[..|commands|] == commands;
      return true;
    }

    method ApplyStaticAssignment(input: Input) returns (outcome: Outcome)
      modifies this
      ensures (outcome, hosts) == Stored(old(hosts), input)
    {
      hide Commands, Records, Exec, IpTaken;
      var records := BuildHostRecords(hosts);
      TakenInRecords(hosts, input);
      var taken := HasDuplicateIPConflict(input, records);
      if taken {
        return IpInUse;
      }
      var commands := BuildCommands(input, records);
      var ok := BatchRun(commands);
      outcome := if ok then Ok else EmptyCommands;
    }

    method Request(input: Input, tags: Option<seq<Tag>>) returns (outcome: Outcome)
      modifies this
      ensures (outcome, hosts) == Requested(old(hosts), input, tags)
    {
      if IsBlank(input.mac) {
        return MacRequired;
      }
      if input.action !in {"add", "modify", "delete"} {
        return InvalidAction;
      }
      var planned := if input.action == "modify" then input.(action := "add") else input;
      if input.action == "add" && IsNoOpAdd(planned) {
        return Ok;
      }
      var normalized := NormalizeTag(planned, tags);
      if normalized.None? {
        return TagNotFound;
      }
      outcome := ApplyStaticAssignment(normalized.value);
    }
  }
}
