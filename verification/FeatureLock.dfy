/** A driver feature that several tools may switch together
    (DriverUtils::SetFeature, apis/tools/src/dd_driver_utils.cpp). */
module FeatureLock {

  datatype Flag = Enable | Disable | Ignore

  datatype Request = Request(flag: Flag, name: string)

  datatype Status = Done | NotReady | ConnectionExists

  /** The flag and the names of those who set it. */
  datatype State = State(flag: Flag, setters: seq<string>)

  const Initial := State(Ignore, [])

  /** A request is accepted unless it conflicts with the flag that others set. */
  predicate Accepts(s: State, r: Request) {
    s.flag == Ignore || r.flag == Ignore || r.flag == s.flag
  }

  function Without(names: seq<string>, name: string): seq<string> {
    if names == [] then []
    else
      var k := |names| - 1;
      if names[k] == name then Without(names[..k], name) else Without(names[..k], name) + [names[k]]
  }

  function Update(s: State, r: Request): State {
    if !Accepts(s, r) then s
    else if r.flag == Ignore then
      var left := Without(s.setters, r.name);
      State(if left == [] then Ignore else s.flag, left)
    else if r.name in s.setters then s
    else State(r.flag, s.setters + [r.name])
  }

  ghost predicate Distinct(names: seq<string>) {
    forall i, j | 0 <= i < j < |names| :: names[i] != names[j]
  }

  /** What every request keeps. */
  ghost predicate Consistent(s: State) {
    Distinct(s.setters) && (s.flag == Ignore <==> s.setters == [])
  }

  lemma {:induction false} WithoutIn(names: seq<string>, name: string)
    ensures forall n :: n in Without(names, name) <==> n in names && n != name
  {
    if names != [] {
      var k := |names| - 1;
      WithoutIn(names[..k], name);
      assert names == names[..k] + [names[k]];
    }
  }

  lemma {:induction false} WithoutDistinct(names: seq<string>, name: string)
    requires Distinct(names)
    ensures Distinct(Without(names, name))
  {
    if names != [] {
      var k := |names| - 1;
      WithoutDistinct(names[..k], name);
      WithoutIn(names[..k], name);
      var front := Without(names[..k], name);
      assert names[k] !in names[..k];
      forall i | 0 <= i < |front| ensures front[i] != names[k] { assert front[i] in front; }
    }
  }

  lemma {:induction false} WithoutShorter(names: seq<string>, name: string)
    ensures |Without(names, name)| <= |names| && (|Without(names, name)| == |names| <==> name !in names)
  {
    if names != [] {
      var k := |names| - 1;
      WithoutShorter(names[..k], name);
      assert names == names[..k] + [names[k]];
    }
  }

  lemma WithoutMembers(names: seq<string>, name: string)
    ensures forall n :: n in Without(names, name) <==> n in names && n != name
    ensures Distinct(names) ==> Distinct(Without(names, name))
    ensures |Without(names, name)| <= |names| && (|Without(names, name)| == |names| <==> name !in names)
  {
    WithoutIn(names, name);
    WithoutShorter(names, name);
    if Distinct(names) { WithoutDistinct(names, name); }
  }

  lemma {:induction false} WithoutAbsent(names: seq<string>, name: string)
    requires name !in names
    ensures Without(names, name) == names
  {
    if names != [] {
      var k := |names| - 1;
      WithoutAbsent(names[..k], name);
      assert names == names[..k] + [names[k]];
    }
  }

  /** A request makes a difference exactly if it is accepted and either enters a new setter or takes
      one out. */
  lemma UpdateChangesExactly(s: State, r: Request)
    requires Consistent(s)
    ensures Update(s, r) != s <==> Accepts(s, r) && (r.flag == Ignore <==> r.name in s.setters)
  {
    WithoutMembers(s.setters, r.name);
    if r.name !in s.setters { WithoutAbsent(s.setters, r.name); }
  }

  // ---- All histories --------------------------------------------------------------------------

  function After(rs: seq<Request>): State {
    if rs == [] then Initial else Update(After(rs[..|rs| - 1]), rs[|rs| - 1])
  }

  datatype Last = Never | Asked(flag: Flag)

  /** The last request of this name that was accepted. */
  function LastAccepted(rs: seq<Request>, name: string): Last {
    if rs == [] then Never
    else
      var before, r := rs[..|rs| - 1], rs[|rs| - 1];
      if r.name == name && Accepts(After(before), r) then Asked(r.flag) else LastAccepted(before, name)
  }

  /** After any history the setters are, without repeats, exactly the names whose last accepted
      request was not to ignore the feature; they all asked for the present flag, which is Ignore
      exactly when there are none. */
  lemma {:induction false} SettersAreLastAccepted(rs: seq<Request>)
    ensures Consistent(After(rs))
    ensures forall n :: n in After(rs).setters <==> LastAccepted(rs, n).Asked? && LastAccepted(rs, n).flag != Ignore
    ensures forall n | n in After(rs).setters :: LastAccepted(rs, n) == Asked(After(rs).flag)
    decreases |rs|
  {
    if rs != [] {
      var k := |rs| - 1;
      SettersAreLastAccepted(rs[..k]);
      WithoutMembers(After(rs[..k]).setters, rs[k].name);
    }
  }

  // ---- Who holds the feature ------------------------------------------------------------------

  /** The holders of the feature and what each wants, without a flag of their own: a name that asks to
      ignore it holds it no longer; one that asks for what all holders want holds it too. */
  function Holders(rs: seq<Request>): map<string, Flag> {
    if rs == [] then map[]
    else
      var m, r := Holders(rs[..|rs| - 1]), rs[|rs| - 1];
      if r.flag == Ignore then m - {r.name}
      else if forall n | n in m :: m[n] == r.flag then m[r.name := r.flag]
      else m
  }

  /** The setters are the holders, and all want the flag. */
  ghost predicate HeldBy(s: State, m: map<string, Flag>) {
    && (forall n :: n in s.setters <==> n in m)
    && (forall n | n in m :: m[n] == s.flag)
    && (s.flag == Ignore <==> s.setters == [])
  }

  lemma LeaveStep(s: State, m: map<string, Flag>, name: string)
    requires HeldBy(s, m)
    ensures HeldBy(Update(s, Request(Ignore, name)), m - {name})
  {
    WithoutMembers(s.setters, name);
    if s.flag == Ignore { WithoutAbsent(s.setters, name); }
  }

  lemma EnterStep(s: State, m: map<string, Flag>, r: Request)
    requires HeldBy(s, m) && r.flag != Ignore
    ensures HeldBy(Update(s, r), if forall n | n in m :: m[n] == r.flag then m[r.name := r.flag] else m)
  {
    if s.setters != [] { assert s.setters[0] in m; }
  }

  /** After any history the setters are the holders. */
  lemma {:induction false} SettersAreHolders(rs: seq<Request>)
    ensures HeldBy(After(rs), Holders(rs))
    decreases |rs|
  {
    if rs != [] {
      var k := |rs| - 1;
      SettersAreHolders(rs[..k]);
      if rs[k].flag == Ignore {
        assert rs[k] == Request(Ignore, rs[k].name);
        LeaveStep(After(rs[..k]), Holders(rs[..k]), rs[k].name);
      } else {
        EnterStep(After(rs[..k]), Holders(rs[..k]), rs[k]);
      }
    }
  }

  /** After any history a name that asks to ignore the feature is out, and all others are where they
      were; if it was the only setter, the feature is free. */
  lemma LeavingLeaves(rs: seq<Request>, name: string)
    ensures var before, after := After(rs), After(rs + [Request(Ignore, name)]);
            && name !in after.setters
            && (forall n | n != name :: n in after.setters <==> n in before.setters)
            && (before.setters == [name] ==> after == State(Ignore, []))
            && (after.flag == if after.setters == [] then Ignore else before.flag)
  {
    assert (rs + [Request(Ignore, name)])[..|rs|] == rs;
    SettersAreHolders(rs);
    LeaveStep(After(rs), Holders(rs), name);
    if After(rs).setters == [name] { OnlyOne(name); }
  }

  lemma OnlyOne(name: string)
    ensures Without([name], name) == []
  {
    assert [name][..0] == [];
    assert Without([], name) == [];
  }

  /** A name that asks for a flag holds the feature from then on, or else some name holds it for
      the opposite flag and nothing changes. */
  lemma EnteringEnters(rs: seq<Request>, r: Request)
    requires r.flag != Ignore
    ensures var before, after := After(rs), After(rs + [r]);
            if exists n :: n in Holders(rs) && Holders(rs)[n] == Opposite(r.flag) then after == before
            else after.flag == r.flag && forall n :: n in after.setters <==> n in before.setters || n == r.name
  {
    assert (rs + [r])[..|rs|] == rs;
    SettersAreHolders(rs);
    if After(rs).setters != [] { assert After(rs).setters[0] in Holders(rs); }
  }

  function Opposite(f: Flag): Flag {
    match f case Enable => Disable case Disable => Enable case Ignore => Ignore
  }

  /** A request is refused if and only if a setter's last accepted request was the opposite flag; a
      request to ignore the feature never is. */
  lemma RefusedExactly(rs: seq<Request>, r: Request)
    ensures !Accepts(After(rs), r) <==>
              || (r.flag == Enable && exists n :: n in After(rs).setters && LastAccepted(rs, n) == Asked(Disable))
              || (r.flag == Disable && exists n :: n in After(rs).setters && LastAccepted(rs, n) == Asked(Enable))
  {
    SettersAreLastAccepted(rs);
    if After(rs).setters != [] {
      var n := After(rs).setters[0];
      assert n in After(rs).setters && LastAccepted(rs, n) == Asked(After(rs).flag);
    }
  }

  /** No request takes the flag from Enable to Disable or back. */
  lemma NoDirectSwitch(rs: seq<Request>, r: Request)
    ensures var before, after := After(rs).flag, After(rs + [r]).flag;
            before == after || before == Ignore || after == Ignore
  {
    assert (rs + [r])[..|rs|] == rs;
  }

  /** So between the two the feature was free: some history in between left no setter. */
  lemma {:induction false} FreeBetween(rs: seq<Request>, i: nat, j: nat) returns (k: nat)
    requires i <= j <= |rs| && After(rs[..i]).flag == Enable && After(rs[..j]).flag == Disable
    ensures i < k < j && After(rs[..k]).setters == []
    decreases j
  {
    var before := j - 1;
    assert rs[..j] == rs[..before] + [rs[before]];
    NoDirectSwitch(rs[..before], rs[before]);
    if After(rs[..before]).flag == Disable {
      k := FreeBetween(rs, i, before);
    } else {
      k := before;
      SettersAreLastAccepted(rs[..before]);
    }
  }

  /** A conflicting request fails however often it is repeated, and changes nothing; once every
      setter has asked to ignore the feature it is accepted. */
  lemma ConflictEnds(rs: seq<Request>, r: Request)
    requires r.flag != Ignore && !Accepts(After(rs), r)
    ensures After(rs + [r]) == After(rs) != Initial
    ensures forall left :: After(rs + left).setters == [] ==> After(rs + left + [r]) == State(r.flag, [r.name])
  {
    assert (rs + [r])[..|rs|] == rs;
    SettersAreLastAccepted(rs);
    forall left | After(rs + left).setters == [] ensures After(rs + left + [r]) == State(r.flag, [r.name]) {
      SettersAreLastAccepted(rs + left);
      assert (rs + left + [r])[..|rs + left|] == rs + left;
    }
  }

  // ---- The feature in memory ------------------------------------------------------------------

  class Feature {
    var flag: Flag
    var setterNames: seq<string>

    function Value(): State
      reads this
    {
      State(flag, setterNames)
    }

    constructor ()
      ensures Value() == Initial
    {
      flag, setterNames := Ignore, [];
    }

    /** std::find. */
    method Find(name: string) returns (found: bool)
      ensures found <==> name in setterNames
    {
      for i := 0 to |setterNames|
        invariant name !in setterNames[..i]
      {
        if setterNames[i] == name { return true; }
      }
      return false;
    }

    /** std::remove and erase. */
    method Remove(name: string)
      modifies this`setterNames
      ensures setterNames == Without(old(setterNames), name)
    {
      var names := setterNames;
      var kept: seq<string> := [];
      for i := 0 to |names|
        invariant kept == Without(names[..i], name)
      {
        assert names[..i + 1][..i] == names[..i];
        if names[i] != name { kept := kept + [names[i]]; }
      }
      assert names[..|names|] == names;
      setterNames := kept;
    }

    /** With a connection it refuses; otherwise the request is applied or, on a conflict, refused. */
    method SetFeature(connectionCount: nat, r: Request) returns (status: Status)
      requires Consistent(Value())
      modifies this
      ensures connectionCount > 0 ==> status == ConnectionExists && Value() == old(Value())
      ensures connectionCount == 0 ==> Value() == Update(old(Value()), r)
      ensures connectionCount == 0 ==> (status == NotReady <==> old(flag) != Ignore && r.flag != Ignore && r.flag != old(flag))
      ensures connectionCount == 0 && status != NotReady ==> status == Done && (r.name in setterNames <==> r.flag != Ignore)
      ensures connectionCount == 0 && status != NotReady && r.flag != Ignore ==> flag == r.flag
      ensures Consistent(Value())
    {
      WithoutMembers(setterNames, r.name);
      status := Done;
      if connectionCount == 0 {
        if flag == Ignore {
          if r.flag != Ignore {
            var found := Find(r.name);
            if !found {
              flag := r.flag;
              setterNames := setterNames + [r.name];
            }
          }
        } else if r.flag == Ignore {
          var oldSize := |setterNames|;
          Remove(r.name);
          if oldSize != |setterNames| {
            if setterNames == [] { flag := Ignore; }
          }
        } else if r.flag == flag {
          var found := Find(r.name);
          if !found { setterNames := setterNames + [r.name]; }
        } else {
          status := NotReady;
        }
      } else {
        status := ConnectionExists;
      }
    }
  }
}
