/**
 The command palette's list of recent commands: three entries, most recent first.
 It forgets everything past the third entry at every step, and is compared here with a
 history that forgets nothing.
 */
module RecentCommands {

  const SHOWN := 3

  predicate Ignored(id: string) {
    id == "" || id == "__terminal"
  }

  function Without(xs: seq<string>, id: string): (r: seq<string>)
    ensures |r| <= |xs|
  {
    if xs == [] then []
    else if xs[0] == id then Without(xs[1..], id)
    else [xs[0]] + Without(xs[1..], id)
  }

  function Take(n: nat, xs: seq<string>): seq<string> {
    if |xs| <= n then xs else xs[..n]
  }

  function Remember(recents: seq<string>, id: string): seq<string> {
    if Ignored(id) then recents else Take(SHOWN, [id] + Without(recents, id))
  }

  function RememberAll(commands: seq<string>): seq<string> {
    if commands == [] then []
    else Remember(RememberAll(commands[..|commands| - 1]), commands[|commands| - 1])
  }

  /** Every command ever run, once, most recent first. */
  function History(commands: seq<string>): seq<string> {
    if commands == [] then []
    else
      var earlier, id := History(commands[..|commands| - 1]), commands[|commands| - 1];
      if Ignored(id) then earlier else [id] + Without(earlier, id)
  }

  /** When `id` was last run, or -1. */
  function LastUse(commands: seq<string>, id: string): (k: int)
    ensures -1 <= k < |commands|
    ensures k >= 0 ==> commands[k] == id
    ensures forall j :: k < j < |commands| ==> commands[j] != id
  {
    if commands == [] then -1
    else if commands[|commands| - 1] == id then |commands| - 1
    else LastUse(commands[..|commands| - 1], id)
  }

  class Palette {
    var recentCommandIds: seq<string>
    ghost var commands: seq<string>

    /** The list shows the latest three of all commands ever run. */
    ghost predicate Valid()
      reads this
    {
      recentCommandIds == Take(SHOWN, History(commands))
    }

    constructor ()
      ensures Valid() && commands == []
    {
      recentCommandIds, commands := [], [];
    }

    method RememberCommand(id: string)
      requires Valid()
      modifies this
      ensures Valid() && commands == old(commands) + [id]
    {
      RecentsAreHistory(commands);
      RecentsAreHistory(commands + [id]);
      assert (commands + [id])[..|commands|] == commands;
      commands := commands + [id];
      if id == "" || id == "__terminal" {
        return;
      }
      recentCommandIds := Take(SHOWN, [id] + Without(recentCommandIds, id));
    }
  }

  predicate Distinct(xs: seq<string>) {
    forall i, j :: 0 <= i < j < |xs| ==> xs[i] != xs[j]
  }

  lemma {:induction false} WithoutAbsent(xs: seq<string>, id: string)
    requires id !in xs
    ensures Without(xs, id) == xs
  {
    if xs != [] {
      WithoutAbsent(xs[1..], id);
    }
  }

  lemma {:induction false} WithoutMembers(xs: seq<string>, id: string)
    ensures forall x :: x in Without(xs, id) <==> x in xs && x != id
  {
    if xs != [] {
      WithoutMembers(xs[1..], id);
      assert xs == [xs[0]] + xs[1..];
    }
  }

  /** In a list without repeats, cutting one place later and then removing loses nothing. */
  lemma {:induction false} CutThenRemove(xs: seq<string>, id: string, n: nat)
    requires Distinct(xs)
    ensures Take(n, Without(Take(n + 1, xs), id)) == Take(n, Without(xs, id))
  {
    if |xs| > n + 1 {
      assert Take(n + 1, xs)[1..] == Take(n, xs[1..]);
      if xs[0] == id {
        WithoutAbsent(xs[1..], id);
        WithoutAbsent(Take(n, xs[1..]), id);
      } else if n > 0 {
        CutThenRemove(xs[1..], id, n - 1);
      }
    }
  }

  /** The history holds exactly the commands run, each once. */
  lemma {:induction false} HistoryMembers(commands: seq<string>)
    ensures Distinct(History(commands))
    ensures forall x :: x in History(commands) <==> x in commands && !Ignored(x)
  {
    if commands != [] {
      var earlier, id := commands[..|commands| - 1], commands[|commands| - 1];
      HistoryMembers(earlier);
      assert commands == earlier + [id];
      WithoutMembers(History(earlier), id);
      WithoutDistinct(History(earlier), id);
    }
  }

  lemma {:induction false} WithoutDistinct(xs: seq<string>, id: string)
    requires Distinct(xs)
    ensures Distinct(Without(xs, id))
  {
    if xs != [] {
      WithoutDistinct(xs[1..], id);
      WithoutMembers(xs[1..], id);
      assert xs[0] !in xs[1..];
      assert xs[0] !in Without(xs[1..], id);
    }
  }

  ghost predicate ByLastUse(commands: seq<string>, xs: seq<string>) {
    forall i, j :: 0 <= i < j < |xs| ==> LastUse(commands, xs[i]) > LastUse(commands, xs[j])
  }

  /** The history is ordered by when each command was last run. */
  lemma {:induction false} HistoryIsMostRecentFirst(commands: seq<string>)
    ensures ByLastUse(commands, History(commands))
  {
    if commands != [] {
      var earlier, id := commands[..|commands| - 1], commands[|commands| - 1];
      HistoryIsMostRecentFirst(earlier);
      HistoryMembers(commands);
      if Ignored(id) {
        assert forall x :: x in History(earlier) ==> LastUse(commands, x) == LastUse(earlier, x);
      } else {
        var rest := Without(History(earlier), id);
        WithoutMembers(History(earlier), id);
        WithoutKeepsOrder(earlier, History(earlier), id);
        assert forall x :: x in rest ==> LastUse(commands, x) == LastUse(earlier, x);
      }
    }
  }

  lemma {:induction false} WithoutKeepsOrder(commands: seq<string>, xs: seq<string>, id: string)
    requires ByLastUse(commands, xs)
    ensures ByLastUse(commands, Without(xs, id))
  {
    if xs != [] {
      WithoutKeepsOrder(commands, xs[1..], id);
      WithoutMembers(xs[1..], id);
      assert forall x :: x in xs[1..] ==> LastUse(commands, xs[0]) > LastUse(commands, x);
    }
  }

  /** Forgetting at every step shows the same three commands as forgetting nothing. */
  lemma {:induction false} RecentsAreHistory(commands: seq<string>)
    ensures RememberAll(commands) == Take(SHOWN, History(commands))
  {
    if commands != [] {
      var earlier, id := commands[..|commands| - 1], commands[|commands| - 1];
      RecentsAreHistory(earlier);
      HistoryMembers(earlier);
      if !Ignored(id) {
        var h := History(earlier);
        CutThenRemove(h, id, SHOWN - 1);
        TakePrepended(id, Without(Take(SHOWN, h), id), SHOWN - 1);
        TakePrepended(id, Without(h, id), SHOWN - 1);
      }
    }
  }

  lemma TakePrepended(id: string, xs: seq<string>, n: nat)
    ensures Take(n + 1, [id] + xs) == [id] + Take(n, xs)
  {
  }

  /**
   The kept list by itself: at most three commands that were run, none of them empty or the
   terminal's, the most recently run first; and a command that was run and is missing was last
   run before all three.
   */
  lemma RecentsAreLatest(commands: seq<string>)
    ensures var kept := RememberAll(commands);
      && |kept| <= 3
      && (forall i :: 0 <= i < |kept| ==> kept[i] in commands && kept[i] != "" && kept[i] != "__terminal")
      && (forall i, j :: 0 <= i < j < |kept| ==> LastUse(commands, kept[i]) > LastUse(commands, kept[j]))
      && (forall id :: id in commands && id != "" && id != "__terminal" && id !in kept ==>
            |kept| == 3 && LastUse(commands, id) < LastUse(commands, kept[2]))
  {
    var kept, all := RememberAll(commands), History(commands);
    RecentsAreHistory(commands);
    HistoryIsMostRecentFirst(commands);
    HistoryMembers(commands);
    forall i | 0 <= i < |kept| ensures kept[i] == all[i] && all[i] in kept {
    }
    hide History, RememberAll, LastUse;
    forall id | id in commands && id != "" && id != "__terminal" && id !in kept
      ensures |kept| == 3 && LastUse(commands, id) < LastUse(commands, kept[2])
    {
      var k :| 0 <= k < |all| && all[k] == id;
      assert LastUse(commands, all[2]) > LastUse(commands, all[k]);
    }
  }
}
