/** Go's filepath.Clean and filepath.Join, on slash-separated paths. */
module FilePaths {

  /** The parts between the slashes. */
  function Segments(path: string): (parts: seq<string>)
    ensures |parts| >= 1
  {
    if path == "" then [""]
    else
      var rest := Segments(path[1..]);
      if path[0] == '/' then [""] + rest else [[path[0]] + rest[0]] + rest[1..]
  }

  /** Empty and "." parts go; ".." takes the part before it away, and goes at the root. */
  function Add(done: seq<string>, part: string, rooted: bool): seq<string> {
    if part == "" || part == "." then done
    else if part != ".." then done + [part]
    else if done != [] && done[|done| - 1] != ".." then done[..|done| - 1]
    else if rooted then done
    else done + [part]
  }

  function Resolve(parts: seq<string>, done: seq<string>, rooted: bool): seq<string>
    decreases |parts|
  {
    if parts == [] then done else Resolve(parts[1..], Add(done, parts[0], rooted), rooted)
  }

  function Text(parts: seq<string>): string {
    if parts == [] then "" else if |parts| == 1 then parts[0] else Text(parts[..|parts| - 1]) + "/" + parts[|parts| - 1]
  }

  predicate Rooted(path: string) {
    path != "" && path[0] == '/'
  }

  function Clean(path: string): string {
    Written(Rooted(path), Resolve(Segments(path), [], Rooted(path)))
  }

  function Written(rooted: bool, parts: seq<string>): string {
    if rooted then "/" + Text(parts) else if Text(parts) == "" then "." else Text(parts)
  }

  function Join(dir: string, file: string): string {
    if dir != "" then Clean(dir + "/" + file) else if file != "" then Clean(file) else ""
  }

  // ----- When two joined paths are the same -----

  datatype Location = Nowhere | Location(rooted: bool, parts: seq<string>)

  /** Where one gets from the directory by following the parts of the file's name. */
  function LocationOf(dir: string, file: string): Location {
    if dir != "" then
      Location(Rooted(dir), Resolve(Segments(file), Resolve(Segments(dir), [], Rooted(dir)), Rooted(dir)))
    else if file != "" then Location(Rooted(file), Resolve(Segments(file), [], Rooted(file)))
    else Nowhere
  }

  ghost predicate Whole(parts: seq<string>) {
    forall part | part in parts :: '/' !in part
  }

  /** What resolving leaves. */
  ghost predicate Proper(parts: seq<string>) {
    Whole(parts) && "" !in parts && "." !in parts
  }

  lemma {:induction false} SegmentsWhole(path: string)
    ensures Whole(Segments(path))
    decreases |path|
  {
    if path != "" {
      SegmentsWhole(path[1..]);
    }
  }

  lemma {:induction false} ResolveProper(parts: seq<string>, done: seq<string>, rooted: bool)
    requires Whole(parts) && Proper(done)
    ensures Proper(Resolve(parts, done, rooted))
    decreases |parts|
  {
    if parts != [] {
      assert parts[0] in parts;
      ResolveProper(parts[1..], Add(done, parts[0], rooted), rooted);
    }
  }

  lemma {:induction false} ResolveConcat(a: seq<string>, b: seq<string>, done: seq<string>, rooted: bool)
    ensures Resolve(a + b, done, rooted) == Resolve(b, Resolve(a, done, rooted), rooted)
    decreases |a|
  {
    if a == [] {
      assert a + b == b;
    } else {
      assert (a + b)[1..] == a[1..] + b;
      ResolveConcat(a[1..], b, Add(done, a[0], rooted), rooted);
    }
  }

  lemma {:induction false} SegmentsOfJoined(a: string, b: string)
    ensures Segments(a + "/" + b) == Segments(a) + Segments(b)
    decreases |a|
  {
    var joined := a + "/" + b;
    if a == "" {
      assert joined[1..] == b && joined[0] == '/';
    } else {
      assert joined[1..] == a[1..] + "/" + b && joined[0] == a[0];
      SegmentsOfJoined(a[1..], b);
      assert (Segments(a[1..]) + Segments(b))[1..] == Segments(a[1..])[1..] + Segments(b);
    }
  }

  lemma {:induction false} SegmentsOfPart(name: string)
    requires '/' !in name
    ensures Segments(name) == [name]
    decreases |name|
  {
    if name != "" {
      SegmentsOfPart(name[1..]);
      assert [name[0]] + name[1..] == name;
    }
  }

  /** A list of parts can be read back from its text. */
  lemma {:induction false} SegmentsOfText(parts: seq<string>)
    requires parts != [] && Whole(parts)
    ensures Segments(Text(parts)) == parts
    decreases |parts|
  {
    var front, last := parts[..|parts| - 1], parts[|parts| - 1];
    SegmentsOfPart(last);
    if front != [] {
      SegmentsOfText(front);
      SegmentsOfJoined(Text(front), last);
    }
    assert parts == front + [last];
  }

  lemma TextStarts(parts: seq<string>)
    requires Proper(parts) && parts != []
    ensures Text(parts) != "" && Text(parts) != "." && Text(parts)[0] != '/'
  {
    SegmentsOfText(parts);
    SegmentsOfPart(".");
    assert parts[0] in parts;
  }

  lemma WrittenRoot(rooted: bool, parts: seq<string>)
    requires Proper(parts)
    ensures Rooted(Written(rooted, parts)) == rooted
  {
    if parts != [] {
      TextStarts(parts);
    }
  }

  lemma WrittenInjective(rooted: bool, parts: seq<string>, rooted': bool, parts': seq<string>)
    requires Proper(parts) && Proper(parts') && Written(rooted, parts) == Written(rooted', parts')
    ensures rooted == rooted' && parts == parts'
  {
    WrittenRoot(rooted, parts);
    WrittenRoot(rooted', parts');
    if parts != [] {
      TextStarts(parts);
      SegmentsOfText(parts);
    }
    if parts' != [] {
      TextStarts(parts');
      SegmentsOfText(parts');
    }
    assert Text(parts) == Text(parts') by {
      assert ("/" + Text(parts))[1..] == Text(parts) && ("/" + Text(parts'))[1..] == Text(parts');
    }
  }

  /** Joining writes the location down. */
  lemma JoinIs(dir: string, file: string)
    ensures match LocationOf(dir, file)
            case Nowhere => Join(dir, file) == ""
            case Location(rooted, parts) => Proper(parts) && Join(dir, file) == Written(rooted, parts) != ""
  {
    SegmentsWhole(file);
    if dir != "" {
      var rooted, base := Rooted(dir), Resolve(Segments(dir), [], Rooted(dir));
      assert Rooted(dir + "/" + file) == rooted;
      SegmentsOfJoined(dir, file);
      ResolveConcat(Segments(dir), Segments(file), [], rooted);
      SegmentsWhole(dir);
      ResolveProper(Segments(dir), [], rooted);
      ResolveProper(Segments(file), base, rooted);
    } else if file != "" {
      ResolveProper(Segments(file), [], Rooted(file));
    }
  }

  /** Two joined paths are the same exactly if following the names leads to the same place. */
  lemma JoinEqualIff(dir: string, a: string, b: string)
    ensures Join(dir, a) == Join(dir, b) <==> LocationOf(dir, a) == LocationOf(dir, b)
  {
    JoinIs(dir, a);
    JoinIs(dir, b);
    var at, bt := LocationOf(dir, a), LocationOf(dir, b);
    if at.Location? && bt.Location? && Join(dir, a) == Join(dir, b) {
      WrittenInjective(at.rooted, at.parts, bt.rooted, bt.parts);
    }
  }

  // ----- Names that stay below the directory -----

  /** The parts of a name once resolved. */
  function Inside(name: string): seq<string> {
    Resolve(Segments(name), [], false)
  }

  predicate Climbs(parts: seq<string>) {
    parts != [] && parts[0] == ".."
  }

  lemma {:induction false} ClimbStays(parts: seq<string>, done: seq<string>)
    requires Climbs(done) && forall i, j | 0 <= i < j < |done| && done[j] == ".." :: done[i] == ".."
    ensures Climbs(Resolve(parts, done, false))
    decreases |parts|
  {
    if parts != [] {
      ClimbStays(parts[1..], Add(done, parts[0], false));
    }
  }

  /** Resolving below a directory is resolving the name on its own, unless it climbs out. */
  lemma {:induction false} ResolveBelow(parts: seq<string>, base: seq<string>, done: seq<string>, rooted: bool)
    requires ".." !in done && !Climbs(Resolve(parts, done, false))
    ensures Resolve(parts, base + done, rooted) == base + Resolve(parts, done, false)
    decreases |parts|
  {
    if parts != [] {
      var next := Add(done, parts[0], false);
      if parts[0] == ".." && done == [] {
        ClimbStays(parts[1..], next);
        assert false;
      }
      assert Add(base + done, parts[0], rooted) == base + next;
      ResolveBelow(parts[1..], base, next, rooted);
    }
  }

  /** For names that do not climb out of the directory only the names count: they collide exactly if they
      resolve to the same parts. */
  lemma InsideIff(dir: string, a: string, b: string)
    requires dir != "" && !Climbs(Inside(a)) && !Climbs(Inside(b))
    ensures Join(dir, a) == Join(dir, b) <==> Inside(a) == Inside(b)
  {
    var rooted, base := Rooted(dir), Resolve(Segments(dir), [], Rooted(dir));
    JoinEqualIff(dir, a, b);
    ResolveBelow(Segments(a), base, [], rooted);
    ResolveBelow(Segments(b), base, [], rooted);
    assert base + [] == base;
    assert (base + Inside(a))[|base|..] == Inside(a) && (base + Inside(b))[|base|..] == Inside(b);
  }

  /** A name that cleaning leaves alone. */
  predicate Plain(name: string) {
    name != "" && name != "." && name != ".." && '/' !in name
  }

  lemma ResolveOne(part: string, done: seq<string>, rooted: bool)
    ensures Resolve([part], done, rooted) == Add(done, part, rooted)
  {
    assert [part][1..] == [];
  }

  lemma InsidePlain(name: string)
    requires Plain(name)
    ensures Inside(name) == Inside("./" + name) == [name]
  {
    SegmentsOfPart(name);
    SegmentsOfPart(".");
    SegmentsOfJoined(".", name);
    assert "." + "/" + name == "./" + name;
    ResolveConcat(["."], [name], [], false);
    assert ["."] + [name] == [".", name];
    ResolveOne(".", [], false);
    ResolveOne(name, [], false);
  }

  /** Plain names give different paths. */
  lemma PlainInjective(dir: string, a: string, b: string)
    requires dir != "" && Plain(a) && Plain(b) && Join(dir, a) == Join(dir, b)
    ensures a == b
  {
    InsidePlain(a);
    InsidePlain(b);
    InsideIff(dir, a, b);
  }

  /** Other names need not. */
  lemma DotCollides(dir: string, name: string)
    requires dir != "" && Plain(name)
    ensures Join(dir, "./" + name) == Join(dir, name)
  {
    InsidePlain(name);
    InsideIff(dir, "./" + name, name);
  }
}
