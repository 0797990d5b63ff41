/**
 How a guest path is appended to a host directory in recomp-runtime/kernel_file.c:
 segment by segment, into a bounded buffer, refusing every segment that Windows
 would read as something else.  What is built stays below where it started.
 */
module HostPath {

  const MAX_SEGMENT := 127

  predicate Slash(c: char) { c == '\\' || c == '/' }

  /** The segments of a path, given what has been read of the present one. */
  function Split(current: string, rest: string): seq<string>
    decreases |rest|
  {
    var now := if current == "" then [] else [current];
    if rest == "" then now
    else if Slash(rest[0]) then now + Split("", rest[1..])
    else Split(current + [rest[0]], rest[1..])
  }

  function Segments(path: string): seq<string> { Split("", path) }

  predicate NoSlash(s: string) { forall i :: 0 <= i < |s| ==> !Slash(s[i]) }

  /** A name as it stands: not empty, no drive or stream, and no end that Windows
      trims, so neither `.` nor `..`. */
  predicate Plain(segment: string) {
    segment != "" && ':' !in segment && segment[|segment| - 1] != '.' && segment[|segment| - 1] != ' '
  }

  predicate AllPlain(segments: seq<string>) {
    forall i :: 0 <= i < |segments| ==> Plain(segments[i]) && |segments[i]| <= MAX_SEGMENT
  }

  function Separated(path: string): (r: string)
    ensures path <= r
  {
    if path != "" && path[|path| - 1] != '\\' then path + "\\" else path
  }

  function Joined(path: string, segments: seq<string>): (r: string)
    ensures path <= r
    decreases |segments|
  {
    if segments == [] then path else Joined(Separated(path) + segments[0], segments[1..])
  }

  lemma Regrouped(a: seq<string>, x: string, b: seq<string>)
    ensures (a + [x]) + b == a + ([x] + b)
  {
  }

  // --------------------------------------------------------- what is built

  lemma {:induction false} SplitRest(current: string, rest: string, more: string)
    requires more == "" || Slash(more[0])
    ensures Split(current, rest + more) == Split(current, rest) + Split("", more)
    decreases |rest|
  {
    if rest == "" {
      assert rest + more == more;
      if more != "" { assert Split("", more) == Split("", more[1..]); }
    } else {
      assert (rest + more)[1..] == rest[1..] + more && (rest + more)[0] == rest[0];
      if Slash(rest[0]) {
        SplitRest("", rest[1..], more);
      } else {
        SplitRest(current + [rest[0]], rest[1..], more);
      }
    }
  }

  lemma {:induction false} SplitName(current: string, name: string)
    requires NoSlash(name) && current + name != ""
    ensures Split(current, name) == [current + name]
    decreases |name|
  {
    if name == "" {
      assert current + name == current;
    } else {
      SplitName(current + [name[0]], name[1..]);
      assert current + [name[0]] + name[1..] == current + name;
    }
  }

  lemma Tail(segment: string)
    requires segment != "" && NoSlash(segment)
    ensures Segments("\\" + segment) == [segment] && Segments(segment) == [segment]
  {
    SplitName("", segment);
    assert "" + segment == segment;
    assert ("\\" + segment)[1..] == segment;
  }

  /** A last separator does not count. */
  lemma LastSeparator(front: string)
    ensures Segments(front + "\\") == Segments(front)
  {
    SplitRest("", front, "\\");
    assert "\\"[1..] == "";
  }

  /** A segment appended is one component more. */
  lemma OneMore(path: string, segment: string)
    requires segment != "" && NoSlash(segment)
    ensures Segments(Separated(path) + segment) == Segments(path) + [segment]
  {
    Tail(segment);
    if path == "" {
      assert Separated(path) + segment == segment;
    } else if path[|path| - 1] != '\\' {
      SplitRest("", path, "\\" + segment);
      assert Separated(path) + segment == path + ("\\" + segment);
    } else {
      var front := path[..|path| - 1];
      assert path == front + "\\";
      SplitRest("", front, "\\" + segment);
      LastSeparator(front);
      assert path + segment == front + ("\\" + segment);
    }
  }

  lemma NoneLeadsUp(segments: seq<string>)
    requires forall i :: 0 <= i < |segments| ==> Plain(segments[i])
    ensures "." !in segments && ".." !in segments
  {
    assert !Plain(".") && !Plain("..");
  }

  /** The components of what is built: those it started from, then the guest's. */
  lemma {:induction false} StaysBelow(path: string, segments: seq<string>)
    requires forall i :: 0 <= i < |segments| ==> segments[i] != "" && NoSlash(segments[i])
    ensures Segments(Joined(path, segments)) == Segments(path) + segments
    decreases |segments|
  {
    if segments != [] {
      OneMore(path, segments[0]);
      StaysBelow(Separated(path) + segments[0], segments[1..]);
      Regrouped(Segments(path), segments[0], segments[1..]);
      assert segments == [segments[0]] + segments[1..];
    }
  }

  lemma {:induction false} SplitNoSlash(current: string, rest: string)
    requires NoSlash(current)
    ensures forall i :: 0 <= i < |Split(current, rest)| ==> NoSlash(Split(current, rest)[i])
    decreases |rest|
  {
    if rest != "" {
      if Slash(rest[0]) { SplitNoSlash("", rest[1..]); } else { SplitNoSlash(current + [rest[0]], rest[1..]); }
    }
  }

  // --------------------------------------------------------------- building

  /** What has been read of a segment is the beginning of it. */
  lemma {:induction false} Begun(current: string, rest: string)
    requires current != ""
    ensures |Split(current, rest)| > 0 && current <= Split(current, rest)[0]
    decreases |rest|
  {
    if rest != "" && !Slash(rest[0]) { Begun(current + [rest[0]], rest[1..]); }
  }

  lemma {:induction false} JoinedTwice(path: string, a: seq<string>, b: seq<string>)
    ensures Joined(path, a + b) == Joined(Joined(path, a), b)
    decreases |a|
  {
    if a == [] {
      assert a + b == b;
    } else {
      assert (a + b)[1..] == a[1..] + b;
      JoinedTwice(Separated(path) + a[0], a[1..], b);
    }
  }

  method AppendSegment(path: string, size: nat, segment: string) returns (ok: bool, longer: string)
    requires |path| < size
    ensures ok <==> Plain(segment) && |Separated(path) + segment| < size
    ensures ok ==> longer == Separated(path) + segment
    ensures !ok ==> longer == path || longer == Separated(path)
    ensures |longer| < size
  {
    longer := path;
    if segment == "" || ':' in segment || segment[|segment| - 1] == '.' || segment[|segment| - 1] == ' ' { return false, path; }
    if longer != "" && longer[|longer| - 1] != '\\' {
      if |longer| + 1 >= size { return false, path; }
      longer := longer + "\\";
    }
    if |longer| + |segment| + 1 > size { return false, longer; }
    return true, longer + segment;
  }

  /** Where the appending has got to. */
  ghost predicate Reached(start: string, relative: string, path: string, done: seq<string>, current: string, at: nat) {
    && at <= |relative| && |current| <= MAX_SEGMENT
    && path == Joined(start, done) && AllPlain(done)
    && done + Split(current, relative[at..]) == Segments(relative)
  }

  /** All of it can be appended, and something is there in the end. */
  ghost predicate Appendable(start: string, relative: string, size: nat) {
    AllPlain(Segments(relative)) && 0 < |Joined(start, Segments(relative))| < size
  }

  lemma Refused(start: string, relative: string, size: nat, path: string, done: seq<string>, segment: string, more: seq<string>)
    requires path == Joined(start, done) && done + ([segment] + more) == Segments(relative)
    requires !(Plain(segment) && |segment| <= MAX_SEGMENT) || |Separated(path) + segment| >= size
    ensures !Appendable(start, relative, size)
  {
    assert Segments(relative)[|done|] == segment;
    JoinedTwice(start, done, [segment] + more);
    assert ([segment] + more)[1..] == more;
  }

  /** One segment read to its end. */
  method Take(path: string, size: nat, segment: string, ghost start: string, ghost relative: string, ghost done: seq<string>,
              ghost more: seq<string>) returns (ok: bool, longer: string)
    requires |path| < size && |segment| <= MAX_SEGMENT && path == Joined(start, done) && AllPlain(done)
    requires done + ([segment] + more) == Segments(relative)
    ensures |longer| < size && start <= longer
    ensures ok ==> longer == Joined(start, done + [segment]) && AllPlain(done + [segment])
    ensures !ok ==> !Appendable(start, relative, size)
  {
    ok, longer := AppendSegment(path, size, segment);
    if ok {
      JoinedTwice(start, done, [segment]);
    } else {
      Refused(start, relative, size, path, done, segment, more);
    }
  }

  lemma TooLong(start: string, relative: string, size: nat, done: seq<string>, current: string, rest: string)
    requires |current| > MAX_SEGMENT && done + Split(current, rest) == Segments(relative)
    ensures !Appendable(start, relative, size)
  {
    Begun(current, rest);
    assert Segments(relative)[|done|] == Split(current, rest)[0];
  }

  /** A separator ends what has been read of a segment. */
  method EndSegment(path: string, size: nat, segment: string, ghost start: string, ghost relative: string,
                    ghost done: seq<string>, ghost at: nat) returns (ok: bool, longer: string, ghost done': seq<string>)
    requires Reached(start, relative, path, done, segment, at) && |path| < size
    requires at < |relative| && Slash(relative[at])
    ensures |longer| < size && start <= longer
    ensures if ok then Reached(start, relative, longer, done', "", at + 1) else !Appendable(start, relative, size)
  {
    ghost var rest := relative[at..];
    assert rest[1..] == relative[at + 1..];
    if segment == "" { return true, path, done; }
    ghost var more := Split("", rest[1..]);
    ok, longer := Take(path, size, segment, start, relative, done, more);
    Regrouped(done, segment, more);
    done' := done + [segment];
  }

  /** One more character of a segment, unless it gets too long. */
  method LongerSegment(segment: string, c: char, ghost path: string, ghost size: nat, ghost start: string,
                       ghost relative: string, ghost done: seq<string>, ghost at: nat) returns (ok: bool, longer: string)
    requires Reached(start, relative, path, done, segment, at)
    requires at < |relative| && relative[at] == c && !Slash(c)
    ensures if ok then Reached(start, relative, path, done, longer, at + 1) else !Appendable(start, relative, size)
  {
    ghost var rest := relative[at..];
    assert rest[1..] == relative[at + 1..];
    if |segment| >= MAX_SEGMENT {
      TooLong(start, relative, size, done, segment + [c], rest[1..]);
      return false, segment;
    }
    return true, segment + [c];
  }

  method AppendRelative(start: string, relative: string, size: nat) returns (ok: bool, path: string)
    requires |start| < size
    ensures |path| < size && start <= path
    ensures ok <==> Appendable(start, relative, size)
    ensures ok ==> path == Joined(start, Segments(relative))
  {
    path := start;
    var segment, at := "", 0;
    ghost var done: seq<string> := [];
    assert relative[0..] == relative;
    while at < |relative|
      invariant Reached(start, relative, path, done, segment, at) && |path| < size && start <= path
    {
      if Slash(relative[at]) {
        ok, path, done := EndSegment(path, size, segment, start, relative, done, at);
        if !ok { return; }
        segment := "";
      } else {
        ok, segment := LongerSegment(segment, relative[at], path, size, start, relative, done, at);
        if !ok { return; }
      }
      at := at + 1;
    }
    assert relative[at..] == "";
    if segment != "" {
      assert [segment] + [] == [segment] == Split(segment, relative[at..]);
      ok, path := Take(path, size, segment, start, relative, done, []);
      if !ok { return; }
      done := done + [segment];
    }
    assert done + [] == done;
    return path != "", path;
  }

  /** Everything that is accepted lies below where it started, component by
      component. */
  lemma AcceptedBelow(start: string, relative: string, size: nat)
    requires Appendable(start, relative, size)
    ensures Segments(Joined(start, Segments(relative))) == Segments(start) + Segments(relative)
    ensures start <= Joined(start, Segments(relative))
    ensures "." !in Segments(relative) && ".." !in Segments(relative)
  {
    SplitNoSlash("", relative);
    StaysBelow(start, Segments(relative));
    NoneLeadsUp(Segments(relative));
  }

  // ------------------------------------------------------ the rules themselves

  /** What the segments of a path are: either separator parts them, and empty ones do
      not count. */
  lemma SegmentsMeans(front: string, c: char, back: string, name: string)
    requires c == '\\' || c == '/'
    requires name != "" && forall i :: 0 <= i < |name| ==> name[i] != '\\' && name[i] != '/'
    ensures Segments(front + [c] + back) == Segments(front) + Segments(back)
    ensures Segments(name) == [name] && Segments("") == []
  {
    SplitRest("", front, [c] + back);
    assert front + ([c] + back) == front + [c] + back;
    assert ([c] + back)[1..] == back;
    SplitName("", name);
    assert "" + name == name;
  }

  /** A segment is refused if it is empty, names a drive or a stream, or ends in what
      Windows trims. */
  lemma PlainMeans(segment: string, front: string, last: char)
    requires segment == front + [last]
    ensures Plain(segment) <==> (forall i :: 0 <= i < |segment| ==> segment[i] != ':') && last != '.' && last != ' '
    ensures !Plain("")
  {
    if ':' in segment {
      var i :| 0 <= i < |segment| && segment[i] == ':';
    }
  }

  /** Segments are put one behind the other, with a backslash between them. */
  lemma JoinedMeans(path: string, segment: string, segments: seq<string>)
    ensures Joined(path, []) == path
    ensures path == "" || path[|path| - 1] == '\\' ==> Joined(path, [segment] + segments) == Joined(path + segment, segments)
    ensures path != "" && path[|path| - 1] != '\\' ==>
      Joined(path, [segment] + segments) == Joined(path + "\\" + segment, segments)
  {
    assert ([segment] + segments)[1..] == segments;
  }

  /** All segments must pass, none longer than 127 characters, and the result must be
      something and fit with its end mark. */
  lemma AppendableMeans(start: string, relative: string, size: nat)
    ensures Appendable(start, relative, size) <==>
      && (forall s :: s in Segments(relative) ==> Plain(s) && |s| <= 127)
      && Joined(start, Segments(relative)) != "" && |Joined(start, Segments(relative))| + 1 <= size
  {
    var segments := Segments(relative);
    if forall s :: s in segments ==> Plain(s) && |s| <= 127 {
      forall i | 0 <= i < |segments| ensures Plain(segments[i]) && |segments[i]| <= MAX_SEGMENT {
        assert segments[i] in segments;
      }
    }
  }
}
