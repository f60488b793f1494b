/** `mangle`: rename files to their short names, one at a time, writing a script that renames them
    back. File names are compared without regard to case. */
module Mangle {

  const TMP: string := "X_MANGLE.TMP"

  function LowerChar(c: char): char
  {
    if 'A' <= c <= 'Z' then (c as int + 32) as char else c
  }

  /** `strcmpi(a, b) == 0` is Lower(a) == Lower(b). */
  function Lower(s: string): string
  {
    seq(|s|, i requires 0 <= i < |s| => LowerChar(s[i]))
  }

  /** A directory: the entry of a name is found under the name in lower case, and remembers the name
      as it was given, and which file it is. */
  datatype Entry = Entry(name: string, file: nat)
  type Directory = map<string, Entry>

  function Rename(d: Directory, src: string, dst: string): Directory
    requires Lower(src) in d
  {
    (d - {Lower(src)})[Lower(dst) := Entry(dst, d[Lower(src)].file)]
  }

  /** `MoveFile` finds its source and does not overwrite. */
  predicate CanMove(d: Directory, src: string, dst: string)
  {
    Lower(src) in d && Lower(dst) !in d - {Lower(src)}
  }

  // ----- the script

  /** A line `mv from to`. */
  datatype Line = Line(from: string, to: string)

  /** Running one line: the target, if it exists, is overwritten. */
  function RunLine(d: Directory, l: Line): Directory
  {
    if Lower(l.from) in d then Rename(d, l.from, l.to) else d
  }

  function Replay(d: Directory, lines: seq<Line>): Directory
    decreases |lines|
  {
    if lines == [] then d else Replay(RunLine(d, lines[0]), lines[1..])
  }

  lemma {:induction false} ReplayLast(d: Directory, lines: seq<Line>, l: Line)
    ensures Replay(d, lines + [l]) == RunLine(Replay(d, lines), l)
    decreases |lines|
  {
    var all := lines + [l];
    if lines == [] {
      assert all[1..] == [];
    } else {
      assert all[0] == lines[0] && all[1..] == lines[1..] + [l];
      ReplayLast(RunLine(d, lines[0]), lines[1..], l);
    }
  }

  lemma {:induction false} ReplayConcat(d: Directory, a: seq<Line>, b: seq<Line>)
    ensures Replay(d, a + b) == Replay(Replay(d, a), b)
    decreases |a|
  {
    if a == [] {
      assert a + b == b;
    } else {
      assert (a + b)[0] == a[0] && (a + b)[1..] == a[1..] + b;
      ReplayConcat(RunLine(d, a[0]), a[1..], b);
    }
  }

  /** One line of the script: the file called `from`, if there is one, is called `to` afterwards;
      a file that was called so is gone; all others stay. */
  lemma LineRuns(d: Directory, from: string, to: string, k: string)
    ensures var e, a, b := Replay(d, [Line(from, to)]), Lower(from), Lower(to);
      && (a !in d ==> e == d)
      && (a in d ==> b in e && e[b] == Entry(to, d[a].file) && (a != b ==> a !in e))
      && (k != a && k != b ==> (k in e <==> k in d) && (k in d ==> e[k] == d[k]))
  {
    assert [Line(from, to)][1..] == [];
  }

  /** Names are the same when they differ in the case of ASCII letters only. */
  lemma SameName(s: string, t: string)
    ensures Lower(s) == Lower(t) <==>
      |s| == |t| && forall i :: 0 <= i < |s| ==>
        || s[i] == t[i]
        || ('A' <= s[i] <= 'Z' && t[i] as int == s[i] as int + 32)
        || ('A' <= t[i] <= 'Z' && s[i] as int == t[i] as int + 32)
  {
    var u, v := Lower(s), Lower(t);
    assert |s| == |t| ==> forall i :: 0 <= i < |s| ==> u[i] == LowerChar(s[i]) && v[i] == LowerChar(t[i]);
    if u == v {
      forall i | 0 <= i < |s| ensures LowerChar(s[i]) == LowerChar(t[i]) { assert u[i] == v[i]; }
    }
  }

  // ----- one file

  /** A volume with its script. System calls are numbered by `tick`; those in `faults` fail for
      reasons of their own. */
  datatype Volume = Volume(dir: Directory, log: seq<Line>, tick: nat)

  datatype Result = Result(vol: Volume, ok: bool)

  function Move(v: Volume, faults: set<nat>, src: string, dst: string): Result
  {
    if v.tick !in faults && CanMove(v.dir, src, dst) then
      Result(v.(dir := Rename(v.dir, src, dst), tick := v.tick + 1), true)
    else Result(v.(tick := v.tick + 1), false)
  }

  function WriteLine(v: Volume, faults: set<nat>, l: Line): Result
  {
    if v.tick !in faults then Result(v.(log := v.log + [l], tick := v.tick + 1), true)
    else Result(v.(tick := v.tick + 1), false)
  }

  datatype Pair = Pair(long: string, short: string)

  predicate Needed(p: Pair)
  {
    p.short != "" && Lower(p.long) != Lower(p.short)
  }

  /** What a step leaves behind: nothing; a renamed file without a line; a file under the temporary
      name. */
  datatype Residue = Clean | Unlogged(p: Pair) | Stuck(p: Pair)

  datatype Step = Step(vol: Volume, ok: bool, residue: Residue)

  function MangleStep(v: Volume, faults: set<nat>, p: Pair): Step
  {
    if !Needed(p) then Step(v, true, Clean)
    else
      var m1 := Move(v, faults, p.long, TMP);
      if !m1.ok then Step(m1.vol, false, Clean)
      else
        var m2 := Move(m1.vol, faults, TMP, p.short);
        if !m2.ok then
          var undo := Move(m2.vol, faults, TMP, p.long);
          Step(undo.vol, false, if undo.ok then Clean else Stuck(p))
        else
          var w := WriteLine(m2.vol, faults, Line(p.short, p.long));
          Step(w.vol, w.ok, if w.ok then Clean else Unlogged(p))
  }

  /** The loop over the listing, which ends at the first failure. */
  function MangleAll(v: Volume, faults: set<nat>, listing: seq<Pair>): Step
    decreases |listing|
  {
    if listing == [] then Step(v, true, Clean)
    else
      var s := MangleStep(v, faults, listing[0]);
      if s.ok then MangleAll(s.vol, faults, listing[1..]) else s
  }

  // ----- the program

  class Mangler {
    var vol: Volume
    const faults: set<nat>

    constructor (vol: Volume, faults: set<nat>)
      ensures this.vol == vol && this.faults == faults
    {
      this.vol := vol;
      this.faults := faults;
    }

    method MoveFile(src: string, dst: string) returns (ok: bool)
      modifies this
      ensures ok <==> old(vol).tick !in faults && CanMove(old(vol).dir, src, dst)
      ensures vol.dir == if ok then Rename(old(vol).dir, src, dst) else old(vol).dir
      ensures vol.log == old(vol).log && vol.tick == old(vol).tick + 1
    {
      var r := Move(vol, faults, src, dst);
      vol := r.vol;
      ok := r.ok;
    }

    method WriteFile(l: Line) returns (ok: bool)
      modifies this
      ensures ok <==> old(vol).tick !in faults
      ensures vol.log == old(vol).log + (if ok then [l] else [])
      ensures vol.dir == old(vol).dir && vol.tick == old(vol).tick + 1
    {
      var r := WriteLine(vol, faults, l);
      vol := r.vol;
      ok := r.ok;
    }

    method MangleFile(realName: string, mangleName: string) returns (ok: bool)
      modifies this
      ensures var s := MangleStep(old(vol), faults, Pair(realName, mangleName)); vol == s.vol && ok == s.ok
      ensures mangleName == "" || Lower(realName) == Lower(mangleName) ==> ok && vol == old(vol)
      ensures mangleName != "" && Lower(realName) != Lower(mangleName) ==>
        Leaves(old(vol), faults, realName, mangleName, ok, vol)
    {
      if mangleName != "" && Lower(realName) != Lower(mangleName) {
        StepMeans(vol, faults, Pair(realName, mangleName));
      }
      if mangleName != "" && Lower(realName) != Lower(mangleName) {
        var moved := MoveFile(realName, TMP);
        if !moved {
          return false;
        }
        moved := MoveFile(TMP, mangleName);
        if !moved {
          var _ := MoveFile(TMP, realName);
          return false;
        }
        var written := WriteFile(Line(mangleName, realName));
        if !written {
          return false;
        }
      }
      return true;
    }

    /** The do-while loop: a listing has at least one entry. */
    method MangleListing(listing: seq<Pair>) returns (ok: bool)
      requires listing != []
      modifies this
      ensures var s := MangleAll(old(vol), faults, listing); vol == s.vol && ok == s.ok
      ensures Files(vol.dir) == Files(old(vol).dir)
      ensures ok <==> vol.log == old(vol).log + Script(listing)
      ensures (forall p :: p in listing ==> p.short == "" || Lower(p.short) == Lower(p.long)) ==> ok && vol == old(vol)
      ensures ok && old(vol).log == [] && Scanned(old(vol).dir, listing) ==>
        (Replay(vol.dir, vol.log) == old(vol).dir <==> !Clashes(Script(listing)))
    {
      RunMeans(vol, faults, listing);
      var i := 0;
      var more := true;
      while more
        invariant i <= |listing| && more == (i < |listing|)
        invariant MangleAll(old(vol), faults, listing) == MangleAll(vol, faults, listing[i..])
        decreases |listing| - i
      {
        assert listing[i..][0] == listing[i] && listing[i..][1..] == listing[i + 1..];
        ok := MangleFile(listing[i].long, listing[i].short);
        if !ok {
          return false;
        }
        i := i + 1;
        more := i < |listing|;
      }
      assert listing[i..] == [];
      return true;
    }
  }

  // ----- nothing is lost

  function Files(d: Directory): set<nat> { set k | k in d :: d[k].file }

  /** No two names of one file. */
  predicate OneNameEach(d: Directory)
  {
    forall k, k' :: k in d && k' in d && d[k].file == d[k'].file ==> k == k'
  }

  lemma MoveKeepsFiles(d: Directory, src: string, dst: string)
    requires CanMove(d, src, dst)
    ensures Files(Rename(d, src, dst)) == Files(d)
    ensures OneNameEach(d) ==> OneNameEach(Rename(d, src, dst))
    ensures |Rename(d, src, dst)| == |d|
  {
    var s, t := Lower(src), Lower(dst);
    var e := Rename(d, src, dst);
    assert forall k :: k in d && k != s ==> k in e && e[k] == d[k];
    assert e[t].file == d[s].file && t in e;
    assert e.Keys == d.Keys - {s} + {t};
    assert |d.Keys - {s}| == |d.Keys| - 1;
    forall f | f in Files(d) ensures f in Files(e) {
      var k :| k in d && d[k].file == f;
      if k == s { assert e[t].file == f; } else { assert e[k].file == f; }
    }
    forall f | f in Files(e) ensures f in Files(d) {
      var k :| k in e && e[k].file == f;
      if k == t { assert d[s].file == f; } else { assert d[k].file == f; }
    }
  }

  /** Whatever fails, no file is lost or overwritten. */
  lemma {:induction false} NothingLost(v: Volume, faults: set<nat>, listing: seq<Pair>)
    ensures var e := MangleAll(v, faults, listing).vol.dir;
      Files(e) == Files(v.dir) && |e| == |v.dir| && (OneNameEach(v.dir) ==> OneNameEach(e))
    decreases |listing|
  {
    if listing != [] {
      StepKeepsFiles(v, faults, listing[0]);
      var s := MangleStep(v, faults, listing[0]);
      if s.ok { NothingLost(s.vol, faults, listing[1..]); }
    }
  }

  lemma StepKeepsFiles(v: Volume, faults: set<nat>, p: Pair)
    ensures var e := MangleStep(v, faults, p).vol.dir;
      Files(e) == Files(v.dir) && |e| == |v.dir| && (OneNameEach(v.dir) ==> OneNameEach(e))
  {
    var m1 := Move(v, faults, p.long, TMP);
    if m1.ok {
      MoveKeepsFiles(v.dir, p.long, TMP);
      var m2 := Move(m1.vol, faults, TMP, p.short);
      if m2.ok {
        MoveKeepsFiles(m1.vol.dir, TMP, p.short);
      } else {
        var undo := Move(m2.vol, faults, TMP, p.long);
        if undo.ok { MoveKeepsFiles(m2.vol.dir, TMP, p.long); }
      }
    }
  }

  // ----- the script undoes the renaming

  /** No name of the pair is touched by the line. */
  predicate Apart(l: Line, x: string)
  {
    Lower(l.from) != Lower(x) && Lower(l.to) != Lower(x)
  }

  lemma {:induction false} RenameCommutes(d: Directory, lines: seq<Line>, src: string, dst: string)
    requires CanMove(d, src, dst) && Lower(src) != Lower(dst)
    requires forall l :: l in lines ==> Apart(l, src) && Apart(l, dst)
    ensures var e := Replay(d, lines);
      CanMove(e, src, dst) && e[Lower(src)] == d[Lower(src)]
      && Replay(Rename(d, src, dst), lines) == Rename(e, src, dst)
    decreases |lines|
  {
    if lines != [] {
      var l := lines[0];
      assert l in lines && forall m :: m in lines[1..] ==> m in lines;
      var d1 := RunLine(d, l);
      assert RunLine(Rename(d, src, dst), l) == Rename(d1, src, dst);
      RenameCommutes(d1, lines[1..], src, dst);
    }
  }

  /** Through the temporary name and on is straight there; and back is nowhere. */
  lemma TwoMoves(d: Directory, p: Pair)
    requires CanMove(d, p.long, TMP) && Lower(p.long) != Lower(TMP)
    ensures var e := Rename(d, p.long, TMP);
      && Lower(TMP) in e
      && (CanMove(e, TMP, p.short) ==> Rename(e, TMP, p.short) == Rename(d, p.long, p.short))
      && (d[Lower(p.long)].name == p.long ==> Rename(e, TMP, p.long) == d)
      && CanMove(e, TMP, p.long)
      && (CanMove(e, TMP, p.short) && Lower(p.short) != Lower(p.long) ==> CanMove(d, p.long, p.short))
  {
  }

  lemma RenameBack(d: Directory, p: Pair)
    requires CanMove(d, p.long, p.short) && Lower(p.long) != Lower(p.short) && d[Lower(p.long)].name == p.long
    ensures RunLine(Rename(d, p.long, p.short), Line(p.short, p.long)) == d
  {
  }

  /** An entry of the directory, spelled as listed, other than the temporary file. */
  predicate Entered(d: Directory, p: Pair)
  {
    Lower(p.long) in d && d[Lower(p.long)].name == p.long && Lower(p.long) != Lower(TMP)
  }

  /** What a scan of the directory returns: the files to rename are entries, each listed once. */
  predicate Scanned(d: Directory, listing: seq<Pair>)
  {
    && (forall i :: 0 <= i < |listing| && Needed(listing[i]) ==> Entered(d, listing[i]))
    && (forall i, j :: 0 <= i < j < |listing| && Needed(listing[i]) && Needed(listing[j]) ==>
          Lower(listing[i].long) != Lower(listing[j].long))
  }

  /** The script for a whole listing. */
  function Script(listing: seq<Pair>): seq<Line>
    decreases |listing|
  {
    if listing == [] then []
    else (if Needed(listing[0]) then [Line(listing[0].short, listing[0].long)] else []) + Script(listing[1..])
  }

  /** A line renames to a name from which a later line renames: the short name of a file is the long
      name of one renamed before it. */
  ghost predicate Clashes(lines: seq<Line>)
  {
    exists i, j :: 0 <= i < j < |lines| && Lower(lines[j].from) == Lower(lines[i].to)
  }

  /** The lines of the files renamed by a run: those written, and the one that could not be. */
  function Renamed(s: Step): seq<Line>
  {
    match s.residue
    case Unlogged(p) => s.vol.log + [Line(p.short, p.long)]
    case _ => s.vol.log
  }

  function Displace(d: Directory, r: Residue): Directory
  {
    match r
    case Clean => d
    case Unlogged(p) => if Lower(p.long) in d then Rename(d, p.long, p.short) else d
    case Stuck(p) => if Lower(p.long) in d then Rename(d, p.long, TMP) else d
  }

  // ----- what every run keeps

  /** The names the script renames from are in the directory, each once. */
  predicate Sources(d: Directory, lines: seq<Line>)
  {
    && (forall i :: 0 <= i < |lines| ==> Lower(lines[i].from) in d)
    && (forall i, j :: 0 <= i < j < |lines| ==> Lower(lines[i].from) != Lower(lines[j].from))
  }

  /** Between two steps, with `rest` still to come. */
  predicate Running(v: Volume, rest: seq<Pair>)
  {
    && Scanned(v.dir, rest) && Sources(v.dir, v.log)
    && (forall i :: 0 <= i < |v.log| ==> Lower(v.log[i].to) != Lower(TMP))
    && (forall i, k :: 0 <= i < |v.log| && 0 <= k < |rest| && Needed(rest[k]) ==>
          Lower(v.log[i].from) != Lower(rest[k].long))
  }

  lemma RunningSkip(v: Volume, rest: seq<Pair>)
    requires Running(v, rest) && rest != [] && !Needed(rest[0])
    ensures Running(v, rest[1..])
  {
  }

  lemma RunningStep(v: Volume, rest: seq<Pair>, tick: nat)
    requires Running(v, rest) && rest != [] && Needed(rest[0])
    requires CanMove(v.dir, rest[0].long, rest[0].short)
    ensures var p := rest[0];
      Running(Volume(Rename(v.dir, p.long, p.short), v.log + [Line(p.short, p.long)], tick), rest[1..])
  {
    var p, r := rest[0], rest[1..];
    var e := Rename(v.dir, p.long, p.short);
    forall k | 0 <= k < |r| && Needed(r[k])
      ensures Entered(e, r[k]) && Lower(r[k].long) != Lower(p.short)
    {
      assert r[k] == rest[k + 1];
    }
    forall i | 0 <= i < |v.log|
      ensures Lower(v.log[i].from) in e && Lower(v.log[i].from) != Lower(p.short)
    {
      assert Lower(v.log[i].from) != Lower(rest[0].long);
    }
  }

  /** A step that goes through renames the file and writes its line. */
  lemma StepDone(v: Volume, faults: set<nat>, p: Pair)
    requires Needed(p) && Entered(v.dir, p) && MangleStep(v, faults, p).ok
    ensures CanMove(v.dir, p.long, p.short)
    ensures MangleStep(v, faults, p).vol
         == Volume(Rename(v.dir, p.long, p.short), v.log + [Line(p.short, p.long)], v.tick + 3)
  {
    TwoMoves(v.dir, p);
  }

  /** A step that fails leaves its residue and nothing else. */
  lemma StepFailed(v: Volume, faults: set<nat>, p: Pair)
    requires Needed(p) && Entered(v.dir, p) && !MangleStep(v, faults, p).ok
    ensures var s := MangleStep(v, faults, p);
      && s.vol.log == v.log
      && (match s.residue
          case Clean => s.vol.dir == v.dir
          case Unlogged(q) => q == p && CanMove(v.dir, p.long, p.short) && s.vol.dir == Rename(v.dir, p.long, p.short)
          case Stuck(q) => q == p && CanMove(v.dir, p.long, TMP) && s.vol.dir == Rename(v.dir, p.long, TMP))
  {
    if Move(v, faults, p.long, TMP).ok { TwoMoves(v.dir, p); }
  }

  /** The files renamed are the first that need it, and all of them when the run succeeds. */
  lemma {:induction false} RenamedFirst(v: Volume, faults: set<nat>, rest: seq<Pair>)
    ensures var s := MangleAll(v, faults, rest);
      && Renamed(s) <= v.log + Script(rest)
      && v.log <= Renamed(s)
      && (s.ok ==> Renamed(s) == s.vol.log == v.log + Script(rest) && s.residue.Clean?)
    decreases |rest|
  {
    if rest != [] {
      var p, s := rest[0], MangleStep(v, faults, rest[0]);
      var l := if Needed(p) then [Line(p.short, p.long)] else [];
      Rejoin(v.log, l, Script(rest[1..]));
      if s.ok {
        RenamedFirst(s.vol, faults, rest[1..]);
      }
    }
  }

  /** A run that fails leaves the script shorter. */
  lemma {:induction false} ShorterScript(v: Volume, faults: set<nat>, rest: seq<Pair>)
    requires !MangleAll(v, faults, rest).ok
    ensures |MangleAll(v, faults, rest).vol.log| < |v.log| + |Script(rest)|
    decreases |rest|
  {
    var s := MangleStep(v, faults, rest[0]);
    if s.ok { ShorterScript(s.vol, faults, rest[1..]); }
  }

  /** A file without a short name, or with one that is its own name, is left alone. */
  lemma {:induction false} Untouched(v: Volume, faults: set<nat>, listing: seq<Pair>)
    requires forall p :: p in listing ==> p.short == "" || Lower(p.short) == Lower(p.long)
    ensures MangleAll(v, faults, listing) == Step(v, true, Clean)
    decreases |listing|
  {
    if listing != [] {
      assert listing[0] in listing;
      Untouched(v, faults, listing[1..]);
    }
  }

  /** The script has a line for exactly the files with a short name other than their own. */
  lemma {:induction false} ScriptLines(listing: seq<Pair>, l: Line)
    ensures l in Script(listing) <==>
      Pair(l.to, l.from) in listing && l.from != "" && Lower(l.to) != Lower(l.from)
    decreases |listing|
  {
    if listing != [] { ScriptLines(listing[1..], l); }
  }

  /** What the renaming of a file leaves, in terms of the volume before it: the file under its short
      name and one line more, or a failure that leaves it under one of its three names. */
  ghost predicate Leaves(v: Volume, faults: set<nat>, long: string, short: string, ok: bool, w: Volume)
  {
    var d, a, b, t := v.dir, Lower(long), Lower(short), Lower(TMP);
    if a !in d || t in d - {a} || v.tick in faults then
      !ok && w == Volume(d, v.log, v.tick + 1)
    else
      var f := d[a].file;
      if b in d || v.tick + 1 in faults then
        !ok && w.log == v.log && w.tick == v.tick + 3
        && w.dir == if v.tick + 2 in faults then (d - {a})[t := Entry(TMP, f)] else d[a := Entry(long, f)]
      else
        && ok == (v.tick + 2 !in faults) && w.tick == v.tick + 3
        && w.dir == (d - {a})[b := Entry(short, f)]
        && w.log == v.log + (if ok then [Line(short, long)] else [])
  }

  lemma StepMeans(v: Volume, faults: set<nat>, p: Pair)
    requires p.short != "" && Lower(p.long) != Lower(p.short)
    ensures var s := MangleStep(v, faults, p); Leaves(v, faults, p.long, p.short, s.ok, s.vol)
  {
    var d, a, b, t := v.dir, Lower(p.long), Lower(p.short), Lower(TMP);
    if a in d && t !in d - {a} {
      var e := Rename(d, p.long, TMP);
      assert b in e - {t} <==> b in d;
      assert Rename(e, TMP, p.long) == d[a := Entry(p.long, d[a].file)];
      if b !in d { assert Rename(e, TMP, p.short) == (d - {a})[b := Entry(p.short, d[a].file)]; }
    }
  }

  lemma Rejoin(a: seq<Line>, b: seq<Line>, c: seq<Line>)
    ensures a + (b + c) == (a + b) + c && a <= a + (b + c) && a + b <= a + (b + c)
  {
  }

  /** When a run ends, the names the renamed files got are in the directory, each once. */
  lemma {:induction false} EndSources(v: Volume, faults: set<nat>, rest: seq<Pair>)
    requires Running(v, rest)
    ensures var s := MangleAll(v, faults, rest); Sources(s.vol.dir, Renamed(s))
    decreases |rest|
  {
    if rest != [] {
      var p, s := rest[0], MangleStep(v, faults, rest[0]);
      if !Needed(p) {
        RunningSkip(v, rest);
        EndSources(v, faults, rest[1..]);
      } else if s.ok {
        StepDone(v, faults, p);
        RunningStep(v, rest, v.tick + 3);
        EndSources(s.vol, faults, rest[1..]);
      } else {
        StepFailed(v, faults, p);
        if s.residue.Unlogged? { RunningStep(v, rest, v.tick); }
      }
    }
  }

  // ----- without a clash the script restores

  /** Running the script now gives d0; the names it renames to are free. */
  ghost predicate Undoable(d0: Directory, v: Volume)
  {
    Replay(v.dir, v.log) == d0 && forall i :: 0 <= i < |v.log| ==> Lower(v.log[i].to) !in v.dir
  }

  lemma LinesApart(v: Volume, rest: seq<Pair>)
    requires Running(v, rest) && rest != [] && Needed(rest[0])
    requires forall i :: 0 <= i < |v.log| ==> Lower(v.log[i].to) !in v.dir
    ensures forall l :: l in v.log ==> Apart(l, rest[0].long)
    ensures CanMove(v.dir, rest[0].long, TMP) ==> forall l :: l in v.log ==> Apart(l, TMP)
    ensures var x := rest[0].short;
      CanMove(v.dir, rest[0].long, x) && (forall i :: 0 <= i < |v.log| ==> Lower(v.log[i].to) != Lower(x)) ==>
        forall l :: l in v.log ==> Apart(l, x)
  {
    forall l | l in v.log ensures exists i :: 0 <= i < |v.log| && v.log[i] == l {
    }
  }

  lemma LoggedStep(d0: Directory, v: Volume, rest: seq<Pair>, tick: nat)
    requires Running(v, rest) && rest != [] && Needed(rest[0]) && Undoable(d0, v)
    requires CanMove(v.dir, rest[0].long, rest[0].short)
    requires forall i :: 0 <= i < |v.log| ==> Lower(v.log[i].to) != Lower(rest[0].short)
    ensures var p := rest[0]; var e := Rename(v.dir, p.long, p.short);
      && Lower(p.long) in d0 && Replay(e, v.log) == Rename(d0, p.long, p.short)
      && Undoable(d0, Volume(e, v.log + [Line(p.short, p.long)], tick))
  {
    var p := rest[0];
    LinesApart(v, rest);
    RenameCommutes(v.dir, v.log, p.long, p.short);
    ReplayLast(Rename(v.dir, p.long, p.short), v.log, Line(p.short, p.long));
    RenameBack(d0, p);
  }

  lemma FailedStep(d0: Directory, v: Volume, faults: set<nat>, rest: seq<Pair>)
    requires Running(v, rest) && rest != [] && Needed(rest[0]) && Undoable(d0, v)
    requires !MangleStep(v, faults, rest[0]).ok && !Clashes(Renamed(MangleStep(v, faults, rest[0])))
    ensures var s := MangleStep(v, faults, rest[0]);
      && Replay(s.vol.dir, s.vol.log) == Displace(d0, s.residue)
      && (!s.residue.Clean? ==> Needed(s.residue.p) && Entered(d0, s.residue.p))
  {
    var p, s := rest[0], MangleStep(v, faults, rest[0]);
    StepFailed(v, faults, p);
    LinesApart(v, rest);
    match s.residue {
      case Clean =>
      case Unlogged(_) =>
        var all := Renamed(s);
        forall i | 0 <= i < |v.log| ensures Lower(v.log[i].to) != Lower(p.short) {
          assert all[i] == v.log[i] && all[|v.log|] == Line(p.short, p.long);
        }
        RenameCommutes(v.dir, v.log, p.long, p.short);
      case Stuck(_) =>
        RenameCommutes(v.dir, v.log, p.long, TMP);
    }
  }

  /** From an undoable state the run stays undoable, and a failed last step leaves exactly what its
      residue says. */
  lemma {:induction false} RunUndoable(d0: Directory, v: Volume, faults: set<nat>, rest: seq<Pair>)
    requires Running(v, rest) && Undoable(d0, v) && !Clashes(Renamed(MangleAll(v, faults, rest)))
    ensures var s := MangleAll(v, faults, rest);
      && Replay(s.vol.dir, s.vol.log) == Displace(d0, s.residue)
      && (!s.residue.Clean? ==> Needed(s.residue.p) && Entered(d0, s.residue.p))
    decreases |rest|
  {
    if rest != [] {
      var p, s := rest[0], MangleStep(v, faults, rest[0]);
      if !Needed(p) {
        RunningSkip(v, rest);
        RunUndoable(d0, v, faults, rest[1..]);
      } else if s.ok {
        StepDone(v, faults, p);
        RenamedFirst(s.vol, faults, rest[1..]);
        var all := Renamed(MangleAll(v, faults, rest));
        forall i | 0 <= i < |v.log| ensures Lower(v.log[i].to) != Lower(p.short) {
          assert all[i] == s.vol.log[i] && all[|v.log|] == s.vol.log[|v.log|];
        }
        LoggedStep(d0, v, rest, v.tick + 3);
        RunningStep(v, rest, v.tick + 3);
        RunUndoable(d0, s.vol, faults, rest[1..]);
      } else {
        FailedStep(d0, v, faults, rest);
      }
    }
  }

  // ----- with a clash it loses a file

  lemma RunLineSize(d: Directory, l: Line)
    ensures |RunLine(d, l)| <= |d|
    ensures Lower(l.from) in d && Lower(l.to) in d && Lower(l.from) != Lower(l.to) ==> |RunLine(d, l)| < |d|
  {
    if Lower(l.from) in d {
      var e := RunLine(d, l);
      assert e.Keys == d.Keys - {Lower(l.from)} + {Lower(l.to)};
      assert |d.Keys - {Lower(l.from)}| == |d.Keys| - 1;
      if Lower(l.to) in d && Lower(l.from) != Lower(l.to) { assert e.Keys == d.Keys - {Lower(l.from)}; }
    }
  }

  lemma {:induction false} ReplaySize(d: Directory, lines: seq<Line>)
    ensures |Replay(d, lines)| <= |d|
    decreases |lines|
  {
    if lines != [] {
      RunLineSize(d, lines[0]);
      ReplaySize(RunLine(d, lines[0]), lines[1..]);
    }
  }

  /** Line i overwrites the file called x, which no line up to i moves away. */
  lemma {:induction false} Overwrites(d: Directory, lines: seq<Line>, i: nat, x: string)
    requires i < |lines| && Sources(d, lines) && x in d && x == Lower(lines[i].to)
    requires forall k :: 0 <= k <= i ==> Lower(lines[k].from) != x
    ensures |Replay(d, lines)| < |d|
    decreases |lines|
  {
    var e := RunLine(d, lines[0]);
    RunLineSize(d, lines[0]);
    if i == 0 {
      ReplaySize(e, lines[1..]);
    } else {
      assert Lower(lines[0].from) != x;
      Overwrites(e, lines[1..], i - 1, x);
    }
  }

  lemma ClashOverwrites(s: Step)
    requires Sources(s.vol.dir, Renamed(s)) && Clashes(Renamed(s))
    ensures |Replay(s.vol.dir, s.vol.log)| < |s.vol.dir|
  {
    var all := Renamed(s);
    var i, j :| 0 <= i < j < |all| && Lower(all[j].from) == Lower(all[i].to);
    assert forall k :: 0 <= k < |s.vol.log| ==> all[k] == s.vol.log[k];
    Overwrites(s.vol.dir, s.vol.log, i, Lower(all[j].from));
  }

  // ----- exactly when the script restores

  /** On a scanned directory, whatever fails: the script gives back the original directory if and only
      if no renamed file got a name that one renamed before it had, and the run left no residue.
      Without such a clash it gives back the original but for the residue; with one it loses a file. */
  lemma ScriptRestores(v: Volume, faults: set<nat>, listing: seq<Pair>)
    requires v.log == [] && Scanned(v.dir, listing)
    ensures var s := MangleAll(v, faults, listing);
      var back := Replay(s.vol.dir, s.vol.log);
      && Renamed(s) <= Script(listing)
      && (back == v.dir <==> !Clashes(Renamed(s)) && s.residue.Clean?)
      && (!Clashes(Renamed(s)) ==> back == Displace(v.dir, s.residue))
      && (Clashes(Renamed(s)) ==> |back| < |v.dir|)
  {
    var s := MangleAll(v, faults, listing);
    RenamedFirst(v, faults, listing);
    assert [] + Script(listing) == Script(listing);
    if Clashes(Renamed(s)) {
      EndSources(v, faults, listing);
      NothingLost(v, faults, listing);
      ClashOverwrites(s);
    } else {
      RunUndoable(v.dir, v, faults, listing);
      if !s.residue.Clean? { assert Lower(s.residue.p.long) !in Displace(v.dir, s.residue); }
    }
  }

  /** For a run that reports success the listing alone decides. */
  lemma SuccessRestores(v: Volume, faults: set<nat>, listing: seq<Pair>)
    requires v.log == [] && Scanned(v.dir, listing) && MangleAll(v, faults, listing).ok
    ensures var s := MangleAll(v, faults, listing);
      var back := Replay(s.vol.dir, s.vol.log);
      && (back == v.dir <==> !Clashes(Script(listing)))
      && (Clashes(Script(listing)) ==> |back| < |v.dir|)
  {
    ScriptRestores(v, faults, listing);
    RenamedFirst(v, faults, listing);
    assert [] + Script(listing) == Script(listing);
  }

  /** A residue means that the last system call, the log write or the undoing move, failed for
      reasons of its own. */
  lemma {:induction false} ResidueMeansFault(v: Volume, faults: set<nat>, listing: seq<Pair>)
    requires forall p :: p in listing && Needed(p) ==> Lower(p.long) != Lower(TMP)
    ensures var s := MangleAll(v, faults, listing);
      s.residue.Clean? || (s.vol.tick > 0 && s.vol.tick - 1 in faults)
    decreases |listing|
  {
    if listing != [] {
      var p := listing[0];
      var s := MangleStep(v, faults, p);
      if s.ok {
        ResidueMeansFault(s.vol, faults, listing[1..]);
      } else if Needed(p) && Move(v, faults, p.long, TMP).ok {
        TwoMoves(v.dir, p);
      }
    }
  }

  /** Where only a file whose own name is not of the short form has a short name, no listing
      clashes. */
  lemma {:induction false} NoClashOnDos(listing: seq<Pair>, dosForm: string -> bool)
    requires forall p :: p in listing && Needed(p) ==> dosForm(Lower(p.short)) && !dosForm(Lower(p.long))
    ensures forall l :: l in Script(listing) ==> dosForm(Lower(l.from)) && !dosForm(Lower(l.to))
    ensures !Clashes(Script(listing))
    decreases |listing|
  {
    if listing != [] { NoClashOnDos(listing[1..], dosForm); }
    var all := Script(listing);
    forall i, j | 0 <= i < j < |all| ensures Lower(all[j].from) != Lower(all[i].to) {
      assert all[i] in all && all[j] in all;
    }
  }

  /** What a run leaves, in one. */
  lemma RunMeans(v: Volume, faults: set<nat>, listing: seq<Pair>)
    ensures var s := MangleAll(v, faults, listing);
      && Files(s.vol.dir) == Files(v.dir)
      && (s.ok <==> s.vol.log == v.log + Script(listing))
      && ((forall p :: p in listing ==> p.short == "" || Lower(p.short) == Lower(p.long)) ==> s.ok && s.vol == v)
      && (s.ok && v.log == [] && Scanned(v.dir, listing) ==>
            (Replay(s.vol.dir, s.vol.log) == v.dir <==> !Clashes(Script(listing))))
  {
    NothingLost(v, faults, listing);
    RenamedFirst(v, faults, listing);
    if !MangleAll(v, faults, listing).ok { ShorterScript(v, faults, listing); }
    if forall p :: p in listing ==> p.short == "" || Lower(p.short) == Lower(p.long) {
      Untouched(v, faults, listing);
    }
    if v.log == [] && Scanned(v.dir, listing) && MangleAll(v, faults, listing).ok {
      SuccessRestores(v, faults, listing);
    }
  }

  /** The smallest case, and it does happen: the short name of the second file is the long name of
      the first, and all moves succeed. */
  lemma ClashLosesFile(v: Volume, a: string, b: string, c: string)
    requires Entered(v.dir, Pair(a, c)) && Entered(v.dir, Pair(b, a)) && v.log == []
    requires Lower(c) !in v.dir && Lower(TMP) !in v.dir && Lower(c) != Lower(TMP)
    requires Lower(a) != Lower(b) && a != "" && c != ""
    ensures var s := MangleAll(v, {}, [Pair(a, c), Pair(b, a)]);
      s.ok && |Replay(s.vol.dir, s.vol.log)| < |v.dir|
  {
    var listing := [Pair(a, c), Pair(b, a)];
    PlainStep(v, a, c);
    PlainStep(Volume(Rename(v.dir, a, c), v.log + [Line(c, a)], v.tick + 3), b, a);
    TwoSteps(v, a, b, c);
    assert listing[1..] == [Pair(b, a)] && listing[1..][1..] == [];
    assert Script(listing) == [Line(c, a)] + ([Line(a, b)] + Script([]));
    assert Script(listing)[0] == Line(c, a) && Script(listing)[1] == Line(a, b);
    SuccessRestores(v, {}, listing);
  }

  lemma PlainStep(v: Volume, long: string, short: string)
    requires Lower(long) in v.dir && Lower(short) !in v.dir && Lower(TMP) !in v.dir
    requires Lower(short) != Lower(TMP) && short != ""
    ensures MangleStep(v, {}, Pair(long, short))
         == Step(Volume(Rename(v.dir, long, short), v.log + [Line(short, long)], v.tick + 3), true, Clean)
  {
  }

  lemma TwoSteps(v: Volume, a: string, b: string, c: string)
    requires MangleStep(v, {}, Pair(a, c)).ok
    ensures MangleAll(v, {}, [Pair(a, c), Pair(b, a)])
         == var s := MangleStep(MangleStep(v, {}, Pair(a, c)).vol, {}, Pair(b, a));
            if s.ok then Step(s.vol, true, Clean) else s
  {
    var l := [Pair(a, c), Pair(b, a)];
    var v1 := MangleStep(v, {}, Pair(a, c)).vol;
    assert l[1..] == [Pair(b, a)] && l[1..][1..] == [];
    assert MangleAll(v, {}, l) == MangleAll(v1, {}, l[1..]);
    var s := MangleStep(v1, {}, Pair(b, a));
    assert s.ok ==> MangleAll(v1, {}, l[1..]) == MangleAll(s.vol, {}, []);
  }
}
