/**
 Which waiting installer processes an uninstall spares: the chain of its ancestors that run the same image, and the
 launcher that asked for elevation. Process ids are recycled, so the parent map may even be cyclic; creation times
 decide.
 */
module Ancestors {

  type Pid = nat

  /** What the system knows of a process that could be opened and still runs. */
  datatype Process = Running(image: string, created: nat) | Unavailable

  datatype System = System(parents: map<Pid, Pid>, process: Pid -> Process)

  /** A process that was not in the snapshot has no parent. */
  function ParentOf(s: System, pid: Pid): Pid {
    if pid in s.parents then s.parents[pid] else 0
  }

  /** The process may be retained: it runs the image and was there before the one it launched. */
  predicate Older(s: System, pid: Pid, image: string, before: nat) {
    var p := s.process(pid);
    pid != 0 && p.Running? && p.image == image && p.created < before
  }

  /** The chain of retained ancestors from `pid` on. It ends for every parent map, because times only decrease. */
  function Chain(s: System, pid: Pid, image: string, before: nat): seq<Pid>
    decreases before
  {
    if !Older(s, pid, image, before) then []
    else [pid] + Chain(s, ParentOf(s, pid), image, s.process(pid).created)
  }

  /** A running process of the image that was there before. */
  predicate RunsBefore(p: Process, image: string, before: nat) {
    p.Running? && p.image == image && p.created < before
  }

  ghost predicate Distinct(ids: seq<Pid>) {
    forall i, j :: 0 <= i < j < |ids| ==> ids[i] != ids[j]
  }

  /** Retained processes get older along the chain, so none occurs twice, and each is the parent of the one before. */
  lemma {:induction false} ChainMeans(s: System, pid: Pid, image: string, before: nat)
    ensures var c := Chain(s, pid, image, before);
            && (forall i :: 0 <= i < |c| ==> c[i] != 0 && RunsBefore(s.process(c[i]), image, before))
            && (forall i, j :: 0 <= i < j < |c| ==> s.process(c[j]).created < s.process(c[i]).created)
            && Distinct(c)
            && (c != [] ==> c[0] == pid)
            && (forall i :: 0 <= i < |c| - 1 ==> c[i] in s.parents && c[i + 1] == s.parents[c[i]])
    decreases before
  {
    if Older(s, pid, image, before) {
      ChainMeans(s, ParentOf(s, pid), image, s.process(pid).created);
    }
  }

  /** The chain is as long as it can be: what follows its last process does not qualify. */
  lemma {:induction false} ChainIsMaximal(s: System, pid: Pid, image: string, before: nat)
    ensures var c := Chain(s, pid, image, before);
            if c == [] then pid == 0 || !RunsBefore(s.process(pid), image, before)
            else
              var last := c[|c| - 1];
              && s.process(last).Running?
              && (last !in s.parents || s.parents[last] == 0
                  || !RunsBefore(s.process(s.parents[last]), image, s.process(last).created))
    decreases before
  {
    if Older(s, pid, image, before) {
      ChainIsMaximal(s, ParentOf(s, pid), image, s.process(pid).created);
    }
  }

  // ---------------------------------------------------------------------------------------------
  // Ids as text
  // ---------------------------------------------------------------------------------------------

  /** The decimal text of an id. */
  function Decimal(n: nat): (text: string)
    ensures text != []
  {
    (if n < 10 then "" else Decimal(n / 10)) + [(n % 10 + 48) as char]
  }

  /** Different ids have different texts, so a text names at most one process. */
  lemma {:induction false} DecimalInjective(m: nat, n: nat)
    requires Decimal(m) == Decimal(n)
    ensures m == n
    decreases m
  {
    var t := Decimal(m);
    assert t[|t| - 1] == (m % 10 + 48) as char == (n % 10 + 48) as char;
    assert m % 10 == n % 10;
    assert t[..|t| - 1] == (if m < 10 then "" else Decimal(m / 10)) == (if n < 10 then "" else Decimal(n / 10));
    if m >= 10 && n >= 10 {
      DecimalInjective(m / 10, n / 10);
    }
  }

  ghost predicate Names(text: string, pids: seq<Pid>) {
    exists i :: 0 <= i < |pids| && Decimal(pids[i]) == text
  }

  /** The text is that of a process of the snapshot that may be retained although it is not an ancestor. */
  ghost predicate NamesOlder(s: System, text: string, pid: Pid, image: string, before: nat) {
    pid in s.parents && Decimal(pid) == text && Older(s, pid, image, before)
  }

  /** All are processes that run the image, and none is there twice. */
  ghost predicate AllRun(s: System, ids: seq<Pid>, image: string) {
    Distinct(ids) && forall i :: 0 <= i < |ids| ==>
      ids[i] != 0 && s.process(ids[i]).Running? && s.process(ids[i]).image == image
  }

  /**
   `named`: the parent the caller claims; `launcher`: the process that asked for elevation, empty if there was none.
   Neither text is ever read as a number.
   */
  method OpenWaitingInstallers(s: System, self: Pid, named: string, launcher: string) returns (ids: seq<Pid>)
    ensures ids != [] ==>
              && self in s.parents && ids[0] == s.parents[self] && Decimal(ids[0]) == named
              && s.process(ids[0]).Running? && AllRun(s, ids, s.process(ids[0]).image)
    ensures ids != [] && launcher != "" ==> Names(launcher, ids)
    ensures var pid, me := ParentOf(s, self), s.process(self);
            if pid == 0 || named != Decimal(pid) || !s.process(pid).Running? || !me.Running? then ids == []
            else ChosenFrom(s, Chain(s, pid, s.process(pid).image, me.created), s.process(pid).image, launcher, ids)
  {
    ids := [];
    var pid := ParentOf(s, self);
    if pid == 0 || named != Decimal(pid) {
      return;
    }
    var parent, me := s.process(pid), s.process(self);
    if !parent.Running? || !me.Running? {
      return;
    }
    ids := Walk(s, pid, parent.image, me.created);
    ChainMeans(s, pid, parent.image, me.created);
    ids := WithLauncher(s, ids, parent.image, launcher);
  }

  /** The chain, with the launcher if it is none of it but may be retained; nothing if it may not. */
  ghost predicate ChosenFrom(s: System, chain: seq<Pid>, image: string, launcher: string, ids: seq<Pid>)
    requires chain != [] ==> s.process(chain[0]).Running?
  {
    if launcher == "" || Names(launcher, chain) then ids == chain
    else if chain != [] && exists c :: NamesOlder(s, launcher, c, image, s.process(chain[0]).created)
    then |ids| == |chain| + 1 && chain <= ids
         && NamesOlder(s, launcher, ids[|chain|], image, s.process(chain[0]).created)
    else ids == []
  }

  method WithLauncher(s: System, chain: seq<Pid>, image: string, launcher: string) returns (ids: seq<Pid>)
    requires AllRun(s, chain, image)
    ensures AllRun(s, ids, image) && ChosenFrom(s, chain, image, launcher, ids)
    ensures ids != [] ==> chain != [] && ids[0] == chain[0] && (launcher != "" ==> Names(launcher, ids))
  {
    if launcher == "" || (exists i :: 0 <= i < |chain| && Decimal(chain[i]) == launcher) {
      return chain;
    }
    if c :| c in s.parents && Decimal(c) == launcher {
      OnlyOne(s, launcher, c);
      if chain != [] && Older(s, c, image, s.process(chain[0]).created) {
        assert NamesOlder(s, launcher, c, image, s.process(chain[0]).created);
        ids := chain + [c];
        assert Decimal(ids[|ids| - 1]) == launcher;
        return;
      }
    }
    return [];
  }

  lemma OnlyOne(s: System, text: string, pid: Pid)
    requires Decimal(pid) == text
    ensures forall c, image, before :: NamesOlder(s, text, c, image, before) ==> c == pid
  {
    forall c, image, before | NamesOlder(s, text, c, image, before)
      ensures c == pid
    {
      DecimalInjective(c, pid);
    }
  }

  method Walk(s: System, start: Pid, image: string, from: nat) returns (ids: seq<Pid>)
    ensures ids == Chain(s, start, image, from)
  {
    var pid, before := start, from;
    ids := [];
    while Older(s, pid, image, before)
      invariant Chain(s, start, image, from) == ids + Chain(s, pid, image, before)
      decreases before
    {
      before := s.process(pid).created;
      ids := ids + [pid];
      pid := ParentOf(s, pid);
    }
  }
}
