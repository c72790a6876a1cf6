/** The task-completion statuses a search may be restricted to, and how the
    allowed set travels as one comma-separated attribute between servers. */
module TaskStatuses {
  import opened Wrappers
  import opened JavaStrings

  /** `TaskHit.Status`. */
  datatype TaskStatus = NEED | INPR | WAITING | DEFERRED | COMP

  /** `Enum.name()`. */
  function Name(st: TaskStatus): string
  {
    match st
    case NEED => "NEED"
    case INPR => "INPR"
    case WAITING => "WAITING"
    case DEFERRED => "DEFERRED"
    case COMP => "COMP"
  }

  /** `TaskStatus.valueOf(name)`: exact match on the constant's name, None
      where Java throws `IllegalArgumentException`. */
  function StatusOf(name: string): (r: Option<TaskStatus>)
    ensures r.Some? ==> Name(r.value) == name
  {
    if name == "NEED" then Some(NEED)
    else if name == "INPR" then Some(INPR)
    else if name == "WAITING" then Some(WAITING)
    else if name == "DEFERRED" then Some(DEFERRED)
    else if name == "COMP" then Some(COMP)
    else None
  }

  /** Every name is a non-empty run of upper-case letters, so it has no
      comma, survives upper-casing, and `valueOf` maps it back. */
  lemma NameShape(st: TaskStatus)
    ensures |Name(st)| > 0 && ',' !in Name(st)
    ensures forall i :: 0 <= i < |Name(st)| ==> IsAsciiUpper(Name(st)[i])
    ensures ToUpper(Name(st)) == Name(st)
    ensures StatusOf(Name(st)) == Some(st)
  {
    ToUpperOfUpper(Name(st));
  }

  /** The statuses named by some token, ignoring case; unknown tokens name
      nothing. */
  function StatusesIn(tokens: seq<string>): (r: set<TaskStatus>)
    ensures forall st :: st in r <==>
      exists i :: 0 <= i < |tokens| && StatusOf(ToUpper(tokens[i])) == Some(st)
  {
    if |tokens| == 0 then {}
    else
      var init := tokens[..|tokens| - 1];
      var last := StatusOf(ToUpper(tokens[|tokens| - 1]));
      assert forall i :: 0 <= i < |init| ==> init[i] == tokens[i];
      StatusesIn(init) + (if last.Some? then {last.value} else {})
  }

  /** What `parse` makes of the attribute's text. */
  function ParseTaskStatusList(attr: string): (r: set<TaskStatus>)
    ensures forall st :: st in r <==>
      exists i :: 0 <= i < |JavaSplit(attr, ',')| && StatusOf(ToUpper(JavaSplit(attr, ',')[i])) == Some(st)
    ensures attr == "" ==> r == {}
  {
    var tokens := JavaSplit(attr, ',');
    if attr == "" then
      assert tokens == [""] && ToUpper("") == "";
      StatusesIn(tokens)
    else StatusesIn(tokens)
  }

  function Names(order: seq<TaskStatus>): (r: seq<string>)
    ensures |r| == |order| && forall i :: 0 <= i < |order| ==> r[i] == Name(order[i])
  {
    seq(|order|, i requires 0 <= i < |order| => Name(order[i]))
  }

  /** `s` lists every status of `statuses` once, in some order, separated by
      commas. */
  ghost predicate ListsEachOnce(s: string, statuses: set<TaskStatus>)
  {
    exists order: seq<TaskStatus> ::
      && |order| == |statuses|
      && (forall st :: st in statuses <==> st in order)
      && s == Join(Names(order), ',')
  }

  /** Parsing the comma-join of the names in any order gives back exactly
      the statuses listed, the empty list included. */
  lemma {:induction false} ParseJoinedNames(order: seq<TaskStatus>)
    ensures forall st :: st in ParseTaskStatusList(Join(Names(order), ',')) <==> st in order
  {
    var names := Names(order);
    if |order| == 0 {
      assert Join(names, ',') == "";
      assert JavaSplit("", ',') == [""];
      assert StatusOf(ToUpper("")) == None;
    } else {
      forall i | 0 <= i < |order| ensures ',' !in names[i] && names[i] != "" {
        NameShape(order[i]);
      }
      JavaSplitJoin(names, ',');
      forall st ensures st in StatusesIn(names) <==> st in order {
        if st in order {
          var i :| 0 <= i < |order| && order[i] == st;
          NameShape(st);
          assert StatusOf(ToUpper(names[i])) == Some(st);
        }
        if st in StatusesIn(names) {
          var i :| 0 <= i < |names| && StatusOf(ToUpper(names[i])) == Some(st);
          NameShape(order[i]);
        }
      }
    }
  }

  /** Appending one status to the list appends its name after a comma, or
      alone when the list was empty; the result is never empty. */
  lemma JoinNamesStep(order: seq<TaskStatus>, st: TaskStatus)
    ensures var s := Join(Names(order), ',');
      && (s == "" <==> order == [])
      && Join(Names(order + [st]), ',') == (if s == "" then Name(st) else s + "," + Name(st))
      && Join(Names(order + [st]), ',') != ""
  {
    NameShape(st);
    assert Names(order + [st]) == Names(order) + [Name(st)];
    if |order| > 0 {
      JoinSnoc(Names(order), Name(st), ',');
      NameShape(order[0]);
      if |order| > 1 {
        assert Names(order) == [Name(order[0])] + Names(order)[1..];
        JoinCons(Name(order[0]), Names(order)[1..], ',');
      }
    } else {
      assert Names([st]) == [Name(st)];
    }
  }

  /** The `encodeParams` loop: the names of a set that Java iterates in an
      unspecified order, with a comma before every name but the first. */
  method JoinStatusNames(statuses: set<TaskStatus>) returns (s: string)
    ensures ListsEachOnce(s, statuses)
    ensures ParseTaskStatusList(s) == statuses
    ensures s == "" <==> statuses == {}
  {
    s := "";
    var rest := statuses;
    ghost var order: seq<TaskStatus> := [];
    while rest != {}
      invariant rest <= statuses
      invariant forall st :: st in statuses <==> st in rest || st in order
      invariant forall st :: st in rest ==> st !in order
      invariant |order| + |rest| == |statuses|
      invariant s == Join(Names(order), ',')
      invariant s == "" <==> order == []
      decreases rest
    {
      var st :| st in rest;
      JoinNamesStep(order, st);
      if |s| > 0 {
        s := s + "," + Name(st);
      } else {
        s := s + Name(st);
      }
      order := order + [st];
      rest := rest - {st};
    }
    ParseJoinedNames(order);
  }

  /** The `parse` loop: split on commas, upper-case each token, keep the
      known statuses and skip the rest. */
  method ParseTaskStatuses(attr: string) returns (r: set<TaskStatus>)
    ensures r == ParseTaskStatusList(attr)
  {
    var tokens := JavaSplit(attr, ',');
    r := {};
    var i := 0;
    while i < |tokens|
      invariant 0 <= i <= |tokens|
      invariant r == StatusesIn(tokens[..i])
    {
      StatusesInPrefix(tokens, i);
      var status := StatusOf(ToUpper(tokens[i]));
      if status.Some? {
        r := r + {status.value};
      }
      i := i + 1;
    }
    assert tokens[..|tokens|] == tokens;
  }

  /** One more token adds what that token names. */
  lemma StatusesInPrefix(tokens: seq<string>, i: nat)
    requires i < |tokens|
    ensures StatusesIn(tokens[..i + 1]) == StatusesIn(tokens[..i]) + NamedBy(tokens[i])
  {
    assert tokens[..i + 1][..i] == tokens[..i];
    assert tokens[..i + 1][i] == tokens[i];
  }

  /** Parsing a comma-join of tokens reads each token on its own. */
  lemma ParseOfJoin(tokens: seq<string>)
    requires |tokens| > 0 && tokens[|tokens| - 1] != ""
    requires forall i :: 0 <= i < |tokens| ==> ',' !in tokens[i]
    ensures ParseTaskStatusList(Join(tokens, ',')) == StatusesIn(tokens)
  {
    JavaSplitJoin(tokens, ',');
  }

  /** The statuses one token names: none, or the one it spells. */
  function NamedBy(token: string): set<TaskStatus>
  {
    var st := StatusOf(ToUpper(token));
    if st.Some? then {st.value} else {}
  }

  /** Three tokens name what each names on its own. */
  lemma StatusesInThree(a: string, b: string, c: string)
    ensures StatusesIn([a, b, c]) == NamedBy(a) + NamedBy(b) + NamedBy(c)
  {
    assert [a, b, c][..2] == [a, b];
    assert StatusesIn([a, b, c]) == StatusesIn([a, b]) + NamedBy(c);
    assert [a, b][..1] == [a];
    assert StatusesIn([a, b]) == StatusesIn([a]) + NamedBy(b);
    assert [a][..0] == [];
    assert StatusesIn([a]) == StatusesIn([]) + NamedBy(a);
  }

  lemma UpperNeed()
    ensures ToUpper("need") == "NEED"
  {
  }

  lemma UpperComp()
    ensures ToUpper("Comp") == "COMP"
  {
  }

  lemma UpperBogus()
    ensures StatusOf(ToUpper("bogus")) == None
  {
    assert |ToUpper("bogus")| == 5;
  }

  /** Unknown tokens are skipped and case does not matter:
      "need,bogus,Comp" allows NEED and COMP. */
  lemma ParseSkipsUnknown()
    ensures ParseTaskStatusList(Join(["need", "bogus", "Comp"], ',')) == {NEED, COMP}
  {
    var tokens := ["need", "bogus", "Comp"];
    assert forall i :: 0 <= i < |tokens| ==> ',' !in tokens[i];
    ParseOfJoin(tokens);
    StatusesInThree("need", "bogus", "Comp");
    UpperNeed();
    UpperComp();
    UpperBogus();
  }
}
