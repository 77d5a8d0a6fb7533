/** Publishing a temporary file under the first free name of a numbered series, alone and
    against any number of concurrent publishers. */
module Publish {
  import opened Strings

  datatype Path = Path(dir: string, name: string)

  type Files = map<Path, string>

  // ------------------------------------------------------------------ candidate names

  function StripDots(s: string): (r: string)
    ensures |r| <= |s| && EndsWith(s, r)
  {
    if s != "" && s[0] == '.' then StripDots(s[1..]) else s
  }

  function FirstDot(s: string): (n: nat)
    ensures n <= |s|
  {
    if s == "" || s[0] == '.' then 0 else 1 + FirstDot(s[1..])
  }

  /** All of `pathlib`'s suffixes together: everything from the first dot that is not leading,
      and nothing for a name that ends in a dot. */
  function Suffixes(name: string): (r: string)
    ensures EndsWith(name, r)
  {
    if EndsWith(name, ".") then ""
    else
      var rest := StripDots(name);
      rest[FirstDot(rest)..]
  }

  function Stem(name: string): string {
    name[..|name| - |Suffixes(name)|]
  }

  function Candidate(desired: Path, counter: nat): Path {
    if counter == 0 then desired
    else desired.(name := Stem(desired.name) + "-" + Decimal(counter) + Suffixes(desired.name))
  }

  // What the names look like.

  predicate NoDot(s: string) {
    forall k | 0 <= k < |s| :: s[k] != '.'
  }

  predicate OnlyDots(s: string) {
    forall k | 0 <= k < |s| :: s[k] == '.'
  }

  lemma {:induction false} StripLeading(dots: string, s: string)
    requires OnlyDots(dots) && (s == "" || s[0] != '.')
    ensures StripDots(dots + s) == s
  {
    if dots == "" {
      assert dots + s == s;
    } else {
      assert (dots + s)[1..] == dots[1..] + s;
      StripLeading(dots[1..], s);
    }
  }

  lemma {:induction false} FirstDotAfter(stem: string, ext: string)
    requires NoDot(stem) && (ext == "" || ext[0] == '.')
    ensures FirstDot(stem + ext) == |stem|
  {
    if stem == "" {
      assert stem + ext == ext;
    } else {
      assert (stem + ext)[1..] == stem[1..] + ext;
      FirstDotAfter(stem[1..], ext);
    }
  }

  /** A name is dots, then a stem without any, then an extension that starts with a dot. All of the
      extension is suffix, unless it ends in a dot; leading dots belong to the stem. */
  lemma SuffixesExact(dots: string, stem: string, ext: string)
    requires OnlyDots(dots) && stem != "" && NoDot(stem) && (ext == "" || ext[0] == '.')
    ensures Suffixes(dots + stem + ext) == if ext != "" && ext[|ext| - 1] == '.' then "" else ext
  {
    var name := dots + stem + ext;
    assert name == dots + (stem + ext);
    assert name[|name| - 1] == (if ext == "" then stem[|stem| - 1] else ext[|ext| - 1]);
    assert EndsWith(name, ".") <==> name[|name| - 1] == '.';
    StripLeading(dots, stem + ext);
    FirstDotAfter(stem, ext);
    assert (stem + ext)[|stem|..] == ext;
  }

  /** The `k`-th name puts the number in front of the whole extension: `backup.tar.gz` becomes
      `backup-1.tar.gz`, `.env.local` becomes `.env-1.local`. Without an extension, or with one that
      ends in a dot, the number comes last. */
  lemma CandidateName(dir: string, dots: string, stem: string, ext: string, k: nat)
    requires OnlyDots(dots) && stem != "" && NoDot(stem) && (ext == "" || ext[0] == '.')
    ensures Candidate(Path(dir, dots + stem + ext), 0) == Path(dir, dots + stem + ext)
    ensures k > 0 && !(ext != "" && ext[|ext| - 1] == '.') ==>
              Candidate(Path(dir, dots + stem + ext), k) == Path(dir, dots + stem + "-" + Decimal(k) + ext)
    ensures k > 0 && ext != "" && ext[|ext| - 1] == '.' ==>
              Candidate(Path(dir, dots + stem + ext), k) == Path(dir, dots + stem + ext + "-" + Decimal(k))
  {
    var name := dots + stem + ext;
    SuffixesExact(dots, stem, ext);
    if ext != "" && ext[|ext| - 1] == '.' {
      assert name[..|name|] == name;
    } else {
      assert name[..|name| - |ext|] == dots + stem;
    }
  }

  lemma OnlyDotsCons(s: string)
    requires s != ""
    ensures OnlyDots(s) <==> s[0] == '.' && OnlyDots(s[1..])
  {
    assert s == [s[0]] + s[1..];
    if s[0] == '.' && OnlyDots(s[1..]) {
      forall k | 0 <= k < |s| ensures s[k] == '.' {
        if k > 0 { assert s[1..][k - 1] == s[k]; }
      }
    }
    if OnlyDots(s) {
      forall k | 0 <= k < |s| - 1 ensures s[1..][k] == '.' {
        assert s[k + 1] == '.';
      }
    }
  }

  /** Every name but one of dots alone is covered: it can be cut up this way. */
  lemma NameParts(name: string) returns (dots: string, stem: string, ext: string)
    requires !OnlyDots(name)
    ensures name == dots + stem + ext
    ensures OnlyDots(dots) && stem != "" && NoDot(stem) && (ext == "" || ext[0] == '.')
  {
    if name[0] == '.' {
      OnlyDotsCons(name);
      dots, stem, ext := NameParts(name[1..]);
      dots := "." + dots;
      assert name == ['.'] + name[1..];
    } else {
      dots := "";
      stem, ext := StemParts(name);
      assert "" + stem + ext == name;
    }
  }

  lemma StemParts(name: string) returns (stem: string, ext: string)
    ensures name == stem + ext && NoDot(stem) && (ext == "" || ext[0] == '.')
    ensures name != "" && name[0] != '.' ==> stem != ""
  {
    if name == "" || name[0] == '.' {
      stem, ext := "", name;
    } else {
      stem, ext := StemParts(name[1..]);
      stem := [name[0]] + stem;
    }
  }

  /** A name of dots alone ends in a dot, so its number comes last too. */
  lemma DotsOnlyName(dir: string, name: string, k: nat)
    requires name != "" && OnlyDots(name) && k > 0
    ensures Candidate(Path(dir, name), k) == Path(dir, name + "-" + Decimal(k))
  {
    assert EndsWith(name, ".") by { assert name[|name| - 1..] == "."; }
    assert name[..|name|] == name;
    assert name + "-" + Decimal(k) + "" == name + "-" + Decimal(k);
  }

  /** No two attempts of one publisher try the same name. */
  lemma CandidatesDistinct(desired: Path, m: nat, n: nat)
    requires Candidate(desired, m) == Candidate(desired, n)
    ensures m == n
  {
    if m != 0 && n != 0 {
      MiddleDetermined(Stem(desired.name), Decimal(m), Decimal(n), Suffixes(desired.name));
      DecimalInjective(m, n);
    } else if m != 0 {
      NumberedIsLonger(desired, m);
    } else if n != 0 {
      NumberedIsLonger(desired, n);
    }
  }

  lemma MiddleDetermined(head: string, a: string, b: string, tail: string)
    requires head + "-" + a + tail == head + "-" + b + tail
    ensures a == b
  {
    var s, t := head + "-" + a + tail, head + "-" + b + tail;
    assert s[|head| + 1..|s| - |tail|] == a;
    assert t[|head| + 1..|t| - |tail|] == b;
  }

  lemma NumberedIsLonger(desired: Path, k: nat)
    requires k != 0
    ensures |Candidate(desired, k).name| > |desired.name|
  {}

  /** The names one publisher tries, by attempt. */
  function Series(desired: Path): (series: nat -> Path)
    ensures forall k: nat :: series(k) == Candidate(desired, k)
  {
    (k: nat) => Candidate(desired, k)
  }

  function Tried(series: nat -> Path, counter: nat): set<Path> {
    if counter == 0 then {} else Tried(series, counter - 1) + {series(counter - 1)}
  }

  lemma {:induction false} TriedMembers(series: nat -> Path, counter: nat, p: Path)
    ensures p in Tried(series, counter) <==> exists k :: 0 <= k < counter && p == series(k)
  {
    if counter > 0 { TriedMembers(series, counter - 1, p); }
  }

  lemma {:induction false} TriedSize(series: nat -> Path, counter: nat)
    requires forall m: nat, n: nat :: series(m) == series(n) ==> m == n
    ensures |Tried(series, counter)| == counter
  {
    if counter > 0 {
      TriedSize(series, counter - 1);
      TriedMembers(series, counter - 1, series(counter - 1));
    }
  }

  lemma {:induction false} TriedTaken(series: nat -> Path, counter: nat, names: set<Path>)
    requires forall k: nat | k < counter :: series(k) in names
    ensures Tried(series, counter) <= names
  {
    if counter > 0 { TriedTaken(series, counter - 1, names); }
  }

  lemma SeriesDistinct(desired: Path)
    ensures forall m: nat, n: nat :: Series(desired)(m) == Series(desired)(n) ==> m == n
  {
    forall m: nat, n: nat | Series(desired)(m) == Series(desired)(n) ensures m == n {
      CandidatesDistinct(desired, m, n);
    }
  }

  /** The first `n` names are taken, and none of the first `n` attempts failed otherwise. */
  ghost predicate Occupied(files: Files, desired: Path, n: nat, linkFails: nat -> bool) {
    forall k: nat | k < n :: Series(desired)(k) in files && !linkFails(k)
  }

  /** When `n + 1` different names are taken, there are more than `n` names. */
  lemma ManyTaken(series: nat -> Path, n: nat, names: set<Path>)
    requires forall k: nat, m: nat :: series(k) == series(m) ==> k == m
    requires forall k: nat | k < n + 1 :: series(k) in names
    ensures n < |names|
  {
    TriedSize(series, n + 1);
    TriedTaken(series, n + 1, names);
    SubsetSize(Tried(series, n + 1), names);
  }

  lemma OccupiedNext(files: Files, desired: Path, n: nat, linkFails: nat -> bool)
    requires Occupied(files, desired, n, linkFails) && Series(desired)(n) in files && !linkFails(n)
    ensures Occupied(files, desired, n + 1, linkFails)
    ensures forall k: nat | k < n + 1 :: Series(desired)(k) in files.Keys
  {}

  lemma OccupiedMore(files: Files, desired: Path, n: nat, linkFails: nat -> bool)
    requires Occupied(files, desired, n, linkFails) && Series(desired)(n) in files && !linkFails(n)
    ensures Occupied(files, desired, n + 1, linkFails)
    ensures n < |files.Keys|
  {
    OccupiedNext(files, desired, n, linkFails);
    SeriesDistinct(desired);
    ManyTaken(Series(desired), n, files.Keys);
  }

  lemma {:induction false} SubsetSize<T>(small: set<T>, large: set<T>)
    requires small <= large
    ensures |small| <= |large|
  {
    if small != {} {
      var x :| x in small;
      SubsetSize(small - {x}, large - {x});
    }
  }

  // ------------------------------------------------------------------------ run alone

  datatype LinkResult = Linked | FileExists | LinkError

  datatype PublishResult = Published(path: Path) | LinkRaised | UnlinkRaised(path: Path)

  class Directory {
    var files: Files

    /** `os.link`: a new name for an existing file, never in place of another. */
    method Link(source: Path, target: Path, fails: bool) returns (r: LinkResult)
      modifies this
      ensures r.LinkError? <==> fails || source !in old(files)
      ensures r.FileExists? ==> target in old(files)
      ensures r.Linked? ==>
                target !in old(files) && source in old(files) && files == old(files)[target := old(files)[source]]
      ensures !r.Linked? ==> files == old(files)
    {
      if fails || source !in files { return LinkError; }
      if target in files { return FileExists; }
      files := files[target := files[source]];
      r := Linked;
    }

    method Unlink(path: Path, fails: bool) returns (ok: bool)
      requires path in files
      modifies this
      ensures ok == !fails && files == if ok then old(files) - {path} else old(files)
    {
      if fails { return false; }
      files := files - {path};
      ok := true;
    }

    /** Terminates in every directory, and uses the lowest-numbered free name: besides giving the
        file that name and dropping the temporary one it changes nothing. `linkFails(k)` injects an
        error other than EEXIST into attempt `k`. */
    method PublishNoClobber(temp: Path, desired: Path, linkFails: nat -> bool, unlinkFails: bool)
      returns (r: PublishResult, ghost attempts: nat)
      modifies this
      ensures Occupied(old(files), desired, attempts, linkFails)
      ensures r.Published? || r.UnlinkRaised? ==>
                && temp in old(files) && r.path == Series(desired)(attempts) && r.path !in old(files)
                && !linkFails(attempts) && r.UnlinkRaised? == unlinkFails
                && files == old(files)[r.path := old(files)[temp]] - (if unlinkFails then {} else {temp})
      ensures r.LinkRaised? ==> files == old(files) && (temp !in old(files) || linkFails(attempts))
    {
      var counter: nat := 0;
      attempts := 0;
      while true
        invariant attempts == counter && files == old(files)
        invariant Occupied(files, desired, counter, linkFails)
        decreases |files.Keys| - counter
      {
        var candidate := Series(desired)(counter);
        var linked := Link(temp, candidate, linkFails(counter));
        match linked
        case FileExists =>
          OccupiedMore(files, desired, counter, linkFails);
          counter := counter + 1;
          attempts := counter;
        case LinkError =>
          return LinkRaised, attempts;
        case Linked =>
          var ok := Unlink(temp, unlinkFails);
          return if ok then Published(candidate) else UnlinkRaised(candidate), attempts;
      }
    }
  }

  // -------------------------------------------------------------- concurrent publishers

  datatype Progress =
    | Trying(k: nat)
    | HasLinked(k: nat)
    | Returned(k: nat)
    | RaisedFirst        // the link failed for another reason than an existing name
    | RaisedLast(k: nat) // the temporary name could not be removed

  /** `series` is the name of each attempt; for a publisher it is `Series(desired)`, but nothing
      below depends on which names they are. */
  datatype Publisher = Publisher(temp: Path, series: nat -> Path, content: string, progress: Progress)

  datatype State = State(files: Files, publishers: seq<Publisher>)

  datatype Action =
    | TryLink(i: nat)
    | FailLink(i: nat)
    | RemoveTemp(i: nat)
    | FailRemove(i: nat)
    | OtherCreates(path: Path, content: string) // any other process, with O_EXCL

  predicate Enabled(s: State, a: Action) {
    match a
    case TryLink(i) => i < |s.publishers| && s.publishers[i].progress.Trying?
                       && s.publishers[i].temp in s.files
    case FailLink(i) => i < |s.publishers| && s.publishers[i].progress.Trying?
    case RemoveTemp(i) => i < |s.publishers| && s.publishers[i].progress.HasLinked?
    case FailRemove(i) => i < |s.publishers| && s.publishers[i].progress.HasLinked?
    case OtherCreates(path, _) => path !in s.files
  }

  function Move(s: State, i: nat, progress: Progress): seq<Publisher>
    requires i < |s.publishers|
  {
    s.publishers[i := s.publishers[i].(progress := progress)]
  }

  function Next(s: State, a: Action): State
    requires Enabled(s, a)
  {
    match a
    case TryLink(i) =>
      var p := s.publishers[i];
      var candidate := p.series(p.progress.k);
      if candidate in s.files then State(s.files, Move(s, i, Trying(p.progress.k + 1)))
      else State(s.files[candidate := s.files[p.temp]], Move(s, i, HasLinked(p.progress.k)))
    case FailLink(i) => State(s.files, Move(s, i, RaisedFirst))
    case RemoveTemp(i) => State(s.files - {s.publishers[i].temp}, Move(s, i, Returned(s.publishers[i].progress.k)))
    case FailRemove(i) => State(s.files, Move(s, i, RaisedLast(s.publishers[i].progress.k)))
    case OtherCreates(path, content) => State(s.files[path := content], s.publishers)
  }

  /** The names that currently stand for this publisher's file. */
  function Owned(p: Publisher): set<Path> {
    match p.progress
    case Trying(_) => {p.temp}
    case RaisedFirst => {p.temp}
    case HasLinked(k) => {p.temp, p.series(k)}
    case RaisedLast(k) => {p.temp, p.series(k)}
    case Returned(k) => {p.series(k)}
  }

  ghost predicate HoldsOwn(files: Files, p: Publisher) {
    && (forall path | path in Owned(p) :: path in files && files[path] == p.content)
    && (p.progress.HasLinked? ==> p.series(p.progress.k) != p.temp)
  }

  ghost predicate Inv(s: State) {
    && (forall i | 0 <= i < |s.publishers| :: HoldsOwn(s.files, s.publishers[i]))
    && (forall i, j | 0 <= i < j < |s.publishers| :: Owned(s.publishers[i]) !! Owned(s.publishers[j]))
  }

  /** Every publisher starts with a temporary file of its own. */
  ghost predicate Initial(s: State) {
    && (forall i | 0 <= i < |s.publishers| ::
          s.publishers[i].progress == Trying(0)
          && s.publishers[i].temp in s.files && s.files[s.publishers[i].temp] == s.publishers[i].content)
    && (forall i, j | 0 <= i < j < |s.publishers| :: s.publishers[i].temp != s.publishers[j].temp)
  }

  /** `path` is the temporary name of a publisher that returned between `s` and `t`. */
  ghost predicate GivenUp(s: State, t: State, path: Path)
    requires |t.publishers| == |s.publishers|
  {
    exists i :: && 0 <= i < |s.publishers| && t.publishers[i].temp == path
                && !s.publishers[i].progress.Returned? && t.publishers[i].progress.Returned?
  }

  /** From `s` to `t` every file stays in place with its content, except for the temporary names of
      publishers that return in the meantime. */
  ghost predicate NoClobber(s: State, t: State) {
    && |t.publishers| == |s.publishers|
    && (forall i | 0 <= i < |s.publishers| ::
          t.publishers[i].temp == s.publishers[i].temp && t.publishers[i].series == s.publishers[i].series
          && t.publishers[i].content == s.publishers[i].content
          && (s.publishers[i].progress.Returned? ==> t.publishers[i].progress.Returned?))
    && (forall path | path in s.files && !GivenUp(s, t, path) :: path in t.files && t.files[path] == s.files[path])
  }

  lemma OwnStep(s: State, i: nat, a: Action)
    requires Inv(s) && Enabled(s, a)
            && (a == TryLink(i) || a == FailLink(i) || a == RemoveTemp(i) || a == FailRemove(i))
    ensures HoldsOwn(Next(s, a).files, Next(s, a).publishers[i])
    ensures Owned(Next(s, a).publishers[i]) <= Owned(s.publishers[i]) + (Next(s, a).files.Keys - s.files.Keys)
  {
    assert HoldsOwn(s.files, s.publishers[i]);
  }

  /** A file a publisher stands by is not touched by the step of another. */
  lemma OthersKeep(s: State, i: nat, j: nat, a: Action)
    requires Inv(s) && Enabled(s, a)
            && (a == TryLink(i) || a == FailLink(i) || a == RemoveTemp(i) || a == FailRemove(i))
    requires j < |s.publishers| && j != i
    ensures HoldsOwn(Next(s, a).files, s.publishers[j])
  {
    assert Owned(s.publishers[i]) !! Owned(s.publishers[j]);
    assert HoldsOwn(s.files, s.publishers[i]) && HoldsOwn(s.files, s.publishers[j]);
    assert a.RemoveTemp? ==> s.publishers[i].temp in Owned(s.publishers[i]);
  }

  lemma StepKeepsInv(s: State, a: Action)
    requires Inv(s) && Enabled(s, a)
    ensures Inv(Next(s, a)) && NoClobber(s, Next(s, a))
    ensures forall path | path in s.files && path in Next(s, a).files :: Next(s, a).files[path] == s.files[path]
  {
    var t := Next(s, a);
    if a.OtherCreates? {
      forall i | 0 <= i < |s.publishers| ensures HoldsOwn(t.files, t.publishers[i]) {
        assert HoldsOwn(s.files, s.publishers[i]);
      }
    } else {
      var i := a.i;
      OwnStep(s, i, a);
      forall j | 0 <= j < |s.publishers| && j != i
        ensures t.publishers[j] == s.publishers[j] && HoldsOwn(t.files, t.publishers[j])
        ensures Owned(t.publishers[i]) !! Owned(t.publishers[j])
      {
        OthersKeep(s, i, j, a);
        assert Owned(s.publishers[i]) !! Owned(s.publishers[j]);
        assert HoldsOwn(s.files, s.publishers[j]);
      }
      assert t.publishers[i].temp == s.publishers[i].temp;
    }
  }

  ghost predicate StepAt(trace: seq<State>, n: int)
    requires 0 <= n < |trace| - 1
  {
    exists a :: Enabled(trace[n], a) && trace[n + 1] == Next(trace[n], a)
  }

  ghost predicate IsRun(trace: seq<State>) {
    && trace != [] && Initial(trace[0])
    && (forall n :: 0 <= n < |trace| - 1 ==> StepAt(trace, n))
  }

  lemma RunStep(trace: seq<State>, n: nat)
    requires IsRun(trace) && n + 1 < |trace| && Inv(trace[n])
    ensures Inv(trace[n + 1]) && NoClobber(trace[n], trace[n + 1])
  {
    var s, t := trace[n], trace[n + 1];
    assert StepAt(trace, n);
    var a :| Enabled(s, a) && t == Next(s, a);
    StepKeepsInv(s, a);
  }

  lemma {:induction false} RunInv(trace: seq<State>, n: nat)
    requires IsRun(trace) && n < |trace|
    ensures Inv(trace[n])
  {
    if n > 0 {
      RunInv(trace, n - 1);
      RunStep(trace, n - 1);
    }
  }

  /** Over a whole run no file is ever replaced or lost, except that a publisher that returns gives
      up its temporary name. */
  lemma {:induction false} RunNeverClobbers(trace: seq<State>, m: nat, n: nat)
    requires IsRun(trace) && m <= n < |trace|
    ensures NoClobber(trace[m], trace[n])
    decreases n
  {
    if m < n {
      RunNeverClobbers(trace, m, n - 1);
      RunInv(trace, n - 1);
      RunStep(trace, n - 1);
      NoClobberTransitive(trace[m], trace[n - 1], trace[n]);
    } else {
      NoClobberReflexive(trace[n]);
    }
  }

  lemma NoClobberReflexive(s: State)
    ensures NoClobber(s, s)
  {}

  lemma NoClobberTransitive(s: State, t: State, u: State)
    requires NoClobber(s, t) && NoClobber(t, u)
    ensures NoClobber(s, u)
  {
    forall path | GivenUp(s, t, path) || GivenUp(t, u, path) ensures GivenUp(s, u, path) {
      var i :| && 0 <= i < |s.publishers| && u.publishers[i].temp == path
               && !s.publishers[i].progress.Returned? && u.publishers[i].progress.Returned?;
    }
  }

  /** Whenever a publisher has returned, the path it returned holds its own content, and no other
      publisher has returned, or still stands by, the same path. */
  lemma ReturnedIsOwn(trace: seq<State>, n: nat, i: nat)
    requires IsRun(trace) && n < |trace| && i < |trace[n].publishers| && trace[n].publishers[i].progress.Returned?
    ensures |trace[0].publishers| == |trace[n].publishers|
    ensures var s, p := trace[n], trace[n].publishers[i];
            var path := p.series(p.progress.k);
            && path in s.files && s.files[path] == trace[0].publishers[i].content
            && (forall j | 0 <= j < |s.publishers| && j != i :: path !in Owned(s.publishers[j]))
  {
    RunInv(trace, n);
    RunNeverClobbers(trace, 0, n);
    var s, p := trace[n], trace[n].publishers[i];
    assert HoldsOwn(s.files, p);
    var path := p.series(p.progress.k);
    assert path in Owned(p);
    forall j | 0 <= j < |s.publishers| && j != i ensures path !in Owned(s.publishers[j]) {
      assert Owned(s.publishers[i]) !! Owned(s.publishers[j]);
    }
  }

  // ------------------------------------------------------------- why a call ends as it does

  /** The number of the attempt a publisher is at, or ended at. */
  function Attempt(p: Progress): nat {
    match p
    case Trying(k) => k
    case HasLinked(k) => k
    case Returned(k) => k
    case RaisedFirst => 0
    case RaisedLast(k) => k
  }

  /** Each name the publisher has passed over was taken at some moment of the run. */
  ghost predicate PassedOver(trace: seq<State>, n: nat, p: Publisher)
    requires n < |trace|
  {
    forall j: nat | j < Attempt(p.progress) :: WasTaken(trace, n, p.series(j))
  }

  ghost predicate WasTaken(trace: seq<State>, n: nat, path: Path)
    requires n < |trace|
  {
    exists m :: 0 <= m <= n && path in trace[m].files
  }

  lemma WasTakenStays(trace: seq<State>, n: nat, path: Path)
    requires n + 1 < |trace| && WasTaken(trace, n, path)
    ensures WasTaken(trace, n + 1, path)
  {}

  /** Against any number of other processes: a publisher only goes on to the next name because it found
      the one before taken. */
  lemma {:induction false} NumbersGoUpOnlyPastTaken(trace: seq<State>, n: nat, i: nat)
    requires IsRun(trace) && n < |trace| && i < |trace[n].publishers|
    ensures PassedOver(trace, n, trace[n].publishers[i])
  {
    if n > 0 {
      RunNeverClobbers(trace, n - 1, n);
      NumbersGoUpOnlyPastTaken(trace, n - 1, i);
      assert StepAt(trace, n - 1);
      var a :| Enabled(trace[n - 1], a) && trace[n] == Next(trace[n - 1], a);
      var before, after := trace[n - 1].publishers[i], trace[n].publishers[i];
      forall j: nat | j < Attempt(after.progress) ensures WasTaken(trace, n, after.series(j)) {
        if j < Attempt(before.progress) {
          WasTakenStays(trace, n - 1, before.series(j));
        } else {
          assert a == TryLink(i) && before.series(j) in trace[n - 1].files;
        }
      }
    }
  }

  /** The actions behind a run. */
  ghost predicate RecordedRun(trace: seq<State>, actions: seq<Action>) {
    && |trace| == |actions| + 1 && Initial(trace[0])
    && (forall n :: 0 <= n < |actions| ==> RecordedStep(trace, actions, n))
  }

  ghost predicate RecordedStep(trace: seq<State>, actions: seq<Action>, n: int)
    requires 0 <= n < |actions| && |trace| == |actions| + 1
  {
    Enabled(trace[n], actions[n]) && trace[n + 1] == Next(trace[n], actions[n])
  }

  ghost predicate Did(actions: seq<Action>, n: nat, a: Action)
    requires n <= |actions|
  {
    exists m :: 0 <= m < n && actions[m] == a
  }

  lemma DidSnoc(actions: seq<Action>, n: nat, a: Action)
    requires n < |actions|
    ensures Did(actions, n + 1, a) <==> Did(actions, n, a) || actions[n] == a
  {}

  /** A call raises exactly when linking failed for another reason than an existing name, or when the
      temporary name could not be removed; and it returns exactly when it has removed that name. */
  lemma {:induction false} EndsExactly(trace: seq<State>, actions: seq<Action>, n: nat, i: nat)
    requires RecordedRun(trace, actions) && n < |trace| && i < |trace[0].publishers|
    ensures |trace[n].publishers| == |trace[0].publishers|
    ensures var p := trace[n].publishers[i].progress;
            && (p.RaisedFirst? <==> Did(actions, n, FailLink(i)))
            && (p.RaisedLast? <==> Did(actions, n, FailRemove(i)))
            && (p.Returned? <==> Did(actions, n, RemoveTemp(i)))
  {
    if n > 0 {
      EndsExactly(trace, actions, n - 1, i);
      DidSnoc(actions, n - 1, FailLink(i));
      DidSnoc(actions, n - 1, FailRemove(i));
      DidSnoc(actions, n - 1, RemoveTemp(i));
      assert RecordedStep(trace, actions, n - 1);
    }
  }
}
