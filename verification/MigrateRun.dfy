/** Run's loop over the files, for one runner that holds the lock. */
module MigrateRun {
  import opened JsonValue
  import opened Migrate

  /** Files not yet applied, in order. */
  function Pending(files: seq<Str>, done: set<Str>): seq<Str> {
    if files == [] then [] else (if files[0] in done then [] else [files[0]]) + Pending(files[1..], done)
  }

  /** The files before the first whose script fails. */
  function BeforeFailure(files: seq<Str>, bad: set<Str>): seq<Str> {
    if files == [] || files[0] in bad then [] else [files[0]] + BeforeFailure(files[1..], bad)
  }

  class Database {
    var tracked: set<Str>
    var effects: seq<Str>

    constructor ()
      ensures tracked == {} && effects == []
    {
      tracked, effects := {}, [];
    }

    /** applyOne: the script and its tracking row commit together, or not at all. */
    method ApplyOne(file: Str, bad: set<Str>) returns (ok: bool)
      modifies this
      ensures ok == (file !in bad && file !in old(tracked))
      ensures tracked == if ok then old(tracked) + {file} else old(tracked)
      ensures effects == if ok then old(effects) + [file] else old(effects)
    {
      ok := file !in bad && file !in tracked;
      if ok { tracked, effects := tracked + {file}, effects + [file]; }
    }

    /** Run: applies every pending file in order, stopping at the first that fails. */
    method Run(entries: seq<Entry>, bad: set<Str>) returns (applied: nat, failed: bool)
      requires Distinct(entries)
      modifies this
      ensures var pending := Pending(Files(entries), old(tracked));
              var went := BeforeFailure(pending, bad);
        && effects == old(effects) + went
        && tracked == old(tracked) + Names(went)
        && applied == |went|
        && failed == (went != pending)
    {
      hide Ascending, Less, Distinct, Files, Pending, BeforeFailure;
      var done := tracked;
      var files := Files(entries);
      FilesSorted(entries);
      applied, failed := 0, false;
      ghost var pending := Pending(files, done);
      ghost var went: seq<Str> := [];
      for i := 0 to |files|
        invariant effects == old(effects) + went && tracked == done + Names(went)
        invariant applied == |went|
        invariant forall f :: f in went ==> f in files[..i]
        invariant pending == went + Pending(files[i..], done)
        invariant BeforeFailure(pending, bad) == went + BeforeFailure(Pending(files[i..], done), bad)
      {
        NextPending(files, i, done, bad, went);
        NotYet(files, i);
        if files[i] in done { continue; }
        var ok := ApplyOne(files[i], bad);
        if !ok {
          failed := true;
          return;
        }
        applied := applied + 1;
        went := went + [files[i]];
      }
      assert files[|files|..] == [];
      NothingPending(done, bad);
      assert went + [] == went;
    }
  }

  lemma NothingPending(done: set<Str>, bad: set<Str>)
    ensures Pending([], done) == [] && BeforeFailure([], bad) == []
  {}

  lemma NextPending(files: seq<Str>, i: nat, done: set<Str>, bad: set<Str>, went: seq<Str>)
    requires i < |files|
    ensures forall f :: f in files[..i + 1] <==> f in files[..i] || f == files[i]
    ensures var now, rest := Pending(files[i..], done), Pending(files[i + 1..], done);
      && (files[i] in done ==> now == rest)
      && (files[i] !in done && files[i] in bad ==> went + now != went && went + BeforeFailure(now, bad) == went)
      && (files[i] !in done && files[i] !in bad ==>
            && went + now == went + [files[i]] + rest
            && went + BeforeFailure(now, bad) == went + [files[i]] + BeforeFailure(rest, bad))
  {
    assert files[..i + 1] == files[..i] + [files[i]];
    assert files[i..][0] == files[i] && files[i..][1..] == files[i + 1..];
    var now, rest := Pending(files[i..], done), Pending(files[i + 1..], done);
    if files[i] in done {
      assert [] + rest == rest;
    } else {
      assert now[1..] == rest && now[0] == files[i];
    }
  }

  lemma NotYet(files: seq<Str>, i: nat)
    requires Ascending(files) && i < |files|
    ensures files[i] !in files[..i]
  {
    if files[i] in files[..i] {
      var j :| 0 <= j < i && files[..i][j] == files[i];
      LessTotal(files[i], files[i]);
    }
  }

  lemma {:induction false} PendingNone(files: seq<Str>, done: set<Str>)
    ensures Pending(files, done) == [] <==> forall f :: f in files ==> f in done
    ensures forall f :: f in Pending(files, done) <==> f in files && f !in done
  {
    if files != [] {
      PendingNone(files[1..], done);
      assert forall f :: f in files <==> f == files[0] || f in files[1..];
    }
  }

  /** A run that fails nowhere leaves nothing pending for the next one. */
  lemma {:induction false} SecondRunIdle(files: seq<Str>, done: set<Str>)
    ensures Pending(files, done + Names(Pending(files, done))) == []
  {
    PendingNone(files, done);
    PendingNone(files, done + Names(Pending(files, done)));
  }

  /** Pending files are those of the listing not yet applied, in the same order. */
  lemma {:induction false} PendingAre(files: seq<Str>, done: set<Str>)
    ensures forall f :: f in Pending(files, done) <==> f in files && f !in done
    ensures Ascending(files) ==> Ascending(Pending(files, done))
  {
    hide Less;
    if files != [] {
      PendingAre(files[1..], done);
      assert forall f :: f in files <==> f == files[0] || f in files[1..];
      var more := Pending(files[1..], done);
      if Ascending(files) {
        forall i | 0 <= i < |more| ensures Less(files[0], more[i]) {
          assert more[i] in files[1..];
          var j :| 0 <= j < |files[1..]| && files[1..][j] == more[i];
          assert files[j + 1] == more[i];
        }
      }
    }
  }

  /** A run stops at the first file that fails. */
  lemma {:induction false} FailureCuts(files: seq<Str>, bad: set<Str>)
    ensures var w := BeforeFailure(files, bad);
      && w <= files && (forall f :: f in w ==> f !in bad)
      && (|w| < |files| ==> files[|w|] in bad)
  {
    if files != [] && files[0] !in bad { FailureCuts(files[1..], bad); }
  }
}
