/** Which processes belong to the traced pod: cgroup paths and their containment. */
module Cgroup {
  import opened Numbers
  import opened Fields

  function TrimPrefix(s: string, prefix: string): string {
    if prefix <= s then s[|prefix|..] else s
  }

  /** Drops one slash from the end. */
  function TrimSlash(s: string): string {
    if s != "" && s[|s| - 1] == '/' then s[..|s| - 1] else s
  }

  function Normalize(path: string): (r: string)
    ensures r == "" || r[0] == '/'
  {
    var p := TrimPrefix(path, "/sys/fs/cgroup");
    TrimSlash(if p != "" && p[0] == '/' then p else "/" + p)
  }

  /** unicode.IsSpace */
  predicate IsSpace(c: char) {
    || '\t' <= c <= '\r'
    || c == ' ' || c == '\U{0085}' || c == '\U{00A0}' || c == '\U{1680}'
    || '\U{2000}' <= c <= '\U{200A}'
    || c == '\U{2028}' || c == '\U{2029}' || c == '\U{202F}' || c == '\U{205F}' || c == '\U{3000}'
  }

  /** Of the ASCII characters six are white space. */
  lemma AsciiSpace(c: char)
    requires c < 128 as char
    ensures IsSpace(c) <==> c in "\t\n\U{000B}\U{000C}\r "
  {
  }

  function TrimLeft(s: string): string {
    if s != "" && IsSpace(s[0]) then TrimLeft(s[1..]) else s
  }

  function TrimRight(s: string): string {
    if s != "" && IsSpace(s[|s| - 1]) then TrimRight(s[..|s| - 1]) else s
  }

  function TrimSpace(s: string): string {
    TrimRight(TrimLeft(s))
  }

  /** The third field of the last line that has three. */
  function LastPath(lines: seq<string>): string {
    if lines == [] then ""
    else
      var line := TrimSpace(lines[|lines| - 1]);
      var parts := Split(line, ':');
      if line != "" && |parts| >= 3 then parts[2] else LastPath(lines[..|lines| - 1])
  }

  function FieldsOfLine(line: string): seq<string> {
    Split(TrimSpace(line), ':')
  }

  /** Whichever line it is: the third field of the last line that has three, or nothing if no line has. */
  lemma {:induction false} LastPathExactly(lines: seq<string>)
    ensures (forall i :: 0 <= i < |lines| ==> |FieldsOfLine(lines[i])| < 3) ==> LastPath(lines) == ""
    ensures forall k :: 0 <= k < |lines| && |FieldsOfLine(lines[k])| >= 3 &&
                        (forall i :: k < i < |lines| ==> |FieldsOfLine(lines[i])| < 3) ==>
                          LastPath(lines) == FieldsOfLine(lines[k])[2]
  {
    if lines != [] {
      var front, last := lines[..|lines| - 1], lines[|lines| - 1];
      LastPathExactly(front);
      assert forall i :: 0 <= i < |front| ==> front[i] == lines[i];
      assert TrimSpace(last) == "" ==> FieldsOfLine(last) == [""];
    }
  }

  /** What is trimmed is white space, and no white space is left at the ends. */
  lemma TrimSpaceExactly(s: string) returns (before: string, behind: string)
    ensures s == before + TrimSpace(s) + behind
    ensures (forall c :: c in before ==> IsSpace(c)) && (forall c :: c in behind ==> IsSpace(c))
    ensures var t := TrimSpace(s); t != "" ==> !IsSpace(t[0]) && !IsSpace(t[|t| - 1])
  {
    before := TrimLeftExactly(s);
    behind := TrimRightExactly(TrimLeft(s));
  }

  lemma {:induction false} TrimLeftExactly(s: string) returns (before: string)
    ensures s == before + TrimLeft(s) && forall c :: c in before ==> IsSpace(c)
    ensures TrimLeft(s) != "" ==> !IsSpace(TrimLeft(s)[0])
  {
    before := "";
    if s != "" && IsSpace(s[0]) {
      before := TrimLeftExactly(s[1..]);
      before := [s[0]] + before;
    }
  }

  lemma {:induction false} TrimRightExactly(s: string) returns (behind: string)
    ensures s == TrimRight(s) + behind && forall c :: c in behind ==> IsSpace(c)
    ensures TrimRight(s) != "" ==> !IsSpace(TrimRight(s)[|TrimRight(s)| - 1]) && TrimRight(s)[0] == s[0]
  {
    behind := "";
    if s != "" && IsSpace(s[|s| - 1]) {
      behind := TrimRightExactly(s[..|s| - 1]);
      behind := behind + [s[|s| - 1]];
    }
  }

  method ExtractCgroupPathFromProc(content: string) returns (path: string)
    ensures path == ExtractedPath(content)
  {
    if "0::" <= content {
      return TrimPrefix(content, "0::");
    }
    var lines := Split(content, '\n');
    var i := |lines| - 1;
    assert lines[..i + 1] == lines;
    while i >= 0
      invariant -1 <= i < |lines|
      invariant LastPath(lines) == LastPath(lines[..i + 1])
    {
      var line := TrimSpace(lines[i]);
      assert lines[..i + 1][..i] == lines[..i];
      if line != "" {
        var parts := Split(line, ':');
        if |parts| >= 3 {
          return parts[2];
        }
      }
      i := i - 1;
    }
    return "";
  }

  function ExtractedPath(content: string): string {
    if "0::" <= content then content[3..] else LastPath(Split(content, '\n'))
  }

  predicate Matches(pidPath: string, target: string) {
    || pidPath == target
    || target + "/" <= pidPath
    || pidPath + "/" <= target
  }

  /** isPIDInCgroup, given the text of /proc/pid/cgroup or None when it cannot be read. */
  predicate InCgroup(cgroupPath: string, procText: Option<string>) {
    if cgroupPath == "" then true
    else if procText.None? then false
    else
      var pidPath := ExtractedPath(TrimSpace(procText.value));
      pidPath != "" && Matches(Normalize(pidPath), Normalize(cgroupPath))
  }

  // ----- containment

  function Components(path: string): seq<string> {
    Split(path, '/')
  }

  lemma {:induction false} JoinConcat(a: seq<string>, b: seq<string>)
    requires a != [] && b != []
    ensures Join(a + b, '/') == Join(a, '/') + "/" + Join(b, '/')
  {
    assert (a + b)[1..] == a[1..] + b;
    if |a| > 1 {
      JoinConcat(a[1..], b);
      assert a[0] + ['/'] + (Join(a[1..], '/') + "/" + Join(b, '/'))
          == a[0] + ['/'] + Join(a[1..], '/') + "/" + Join(b, '/');
    }
  }

  /** One path is the other or begins with it and a slash exactly when its components are the first
      components of the other. */
  lemma PrefixIsByComponents(outer: string, inner: string)
    ensures (inner == outer || outer + "/" <= inner) <==> Components(outer) <= Components(inner)
  {
    JoinInvertsSplit(outer, '/');
    JoinInvertsSplit(inner, '/');
    if outer + "/" <= inner {
      var rest := inner[|outer| + 1..];
      assert inner == outer + ['/'] + rest;
      SplitConcat(outer, rest, '/');
    }
    if Components(outer) <= Components(inner) {
      var n := |Components(outer)|;
      var rest := Components(inner)[n..];
      assert Components(inner) == Components(outer) + rest;
      if rest == [] {
        assert Components(inner) == Components(outer);
      } else {
        JoinConcat(Components(outer), rest);
      }
    }
  }

  /** A process is accepted exactly when its cgroup is the pod's, lies inside it, or contains it, compared
      component by component; in particular never because of a sibling that shares a text prefix. */
  lemma Containment(cgroupPath: string, procText: string)
    requires cgroupPath != ""
    ensures var pidPath := ExtractedPath(TrimSpace(procText));
            var mine, pods := Components(Normalize(pidPath)), Components(Normalize(cgroupPath));
            InCgroup(cgroupPath, Some(procText)) <==> pidPath != "" && (mine <= pods || pods <= mine)
  {
    var pidPath := ExtractedPath(TrimSpace(procText));
    PrefixIsByComponents(Normalize(pidPath), Normalize(cgroupPath));
    PrefixIsByComponents(Normalize(cgroupPath), Normalize(pidPath));
  }

  /** The file of a process shows a cgroup whose components begin the pod's, or are begun by them. */
  ghost predicate Related(cgroupPath: string, procText: Option<string>) {
    && procText.Some?
    && var pidPath := ExtractedPath(TrimSpace(procText.value));
       && pidPath != ""
       && var mine, pods := Components(Normalize(pidPath)), Components(Normalize(cgroupPath));
          mine <= pods || pods <= mine
  }

  /** Without a pod path every process is accepted, readable or not; with one, none whose cgroup file cannot
      be read or shows no path, and of the others exactly the related ones. */
  lemma AcceptedExactly(cgroupPath: string, procText: Option<string>)
    ensures InCgroup(cgroupPath, procText) <==> cgroupPath == "" || Related(cgroupPath, procText)
  {
    if cgroupPath != "" && procText.Some? {
      Containment(cgroupPath, procText.value);
    }
  }

  const MOUNT := "/sys/fs/cgroup"

  /** What is compared: the path below the mount point, with a slash in front, and without one slash behind. */
  lemma NormalizeExactly(path: string, below: string)
    requires path == "/sys/fs/cgroup" + below || (path == below && !("/sys/fs/cgroup" <= path))
    ensures var full := if below != "" && below[0] == '/' then below else "/" + below;
            if full[|full| - 1] == '/' then Normalize(path) + "/" == full else Normalize(path) == full
  {
    if "/sys/fs/cgroup" <= path {
      assert path[14..] == below;
    }
  }

  /** The mount point in front of a path and one slash behind it make no difference. */
  lemma NormalizeIgnoresMount(p: string)
    requires p != "" && p[0] == '/' && !(MOUNT <= p)
    ensures Normalize(MOUNT + p) == Normalize(p)
    ensures p[|p| - 1] != '/' ==> Normalize(p + "/") == Normalize(p) == p
  {
    assert (MOUNT + p)[|MOUNT|..] == p;
    if p[|p| - 1] != '/' {
      PrefixOfExtended(MOUNT, p, '/');
      assert (p + "/")[..|p|] == p;
    }
  }

  lemma PrefixOfExtended(prefix: string, s: string, c: char)
    requires prefix != "" && prefix[|prefix| - 1] != c
    ensures prefix <= s + [c] <==> prefix <= s
  {
    if prefix <= s + [c] {
      assert forall i :: 0 <= i < |prefix| ==> prefix[i] == (s + [c])[i];
    }
  }

  lemma UnifiedPath(path: string)
    requires path != "" && !IsSpace(path[|path| - 1])
    ensures ExtractedPath(TrimSpace("0::" + path + "\n")) == path
  {
    var text := "0::" + path;
    NoEdgeSpace(text);
    assert (text + "\n")[..|text|] == text;
    assert TrimLeft(text + "\n") == text + "\n";
    assert TrimSpace(text + "\n") == TrimRight(text) == text;
    assert text[3..] == path;
  }

  /** On the unified hierarchy a process of the pod's own cgroup, or of one inside it, is accepted. */
  lemma OwnProcessAccepted(p: string, inner: string)
    requires p != "" && p[0] == '/' && !(MOUNT <= p) && p[|p| - 1] != '/'
    requires inner == "" || inner[0] == '/'
    requires var path := p + inner; !(MOUNT <= path) && !IsSpace(path[|path| - 1]) && path[|path| - 1] != '/'
    ensures InCgroup(MOUNT + p, Some("0::" + (p + inner) + "\n"))
  {
    var path := p + inner;
    UnifiedPath(path);
    NormalizeIgnoresMount(p);
    NormalizeIgnoresMount(path);
    InnerMatches(p, inner);
  }

  lemma InnerMatches(p: string, inner: string)
    requires inner == "" || inner[0] == '/'
    ensures Matches(p + inner, p)
  {
    if inner == "" {
      assert p + inner == p;
    } else {
      assert p + "/" <= p + inner;
    }
  }

  // ----- the path of a process

  lemma NoEdgeSpace(s: string)
    requires s != "" ==> !IsSpace(s[0]) && !IsSpace(s[|s| - 1])
    ensures TrimSpace(s) == s
  {
  }

  /** With several hierarchies listed, the path is that of the last line, up to its first colon. */
  lemma LastHierarchy(before: string, id: string, controllers: string, path: string, tail: string)
    requires id != "" && !IsSpace(id[0])
    requires ':' !in id && ':' !in controllers && ':' !in path
    requires '\n' !in id && '\n' !in controllers && '\n' !in path && '\n' !in tail
    requires tail == "" || tail[0] == ':'
    requires var line := id + ":" + controllers + ":" + path + tail; !IsSpace(line[|line| - 1])
    requires var content := before + "\n" + (id + ":" + controllers + ":" + path + tail); !("0::" <= content)
    ensures ExtractedPath(before + "\n" + (id + ":" + controllers + ":" + path + tail)) == path
  {
    var line := id + ":" + controllers + ":" + path + tail;
    SplitConcat(before, line, '\n');
    SplitOfFree(line, '\n');
    assert before + "\n" + line == before + ['\n'] + line;
    var lines := Split(before + "\n" + line, '\n');
    assert lines[|lines| - 1] == line;
    assert line[0] == id[0];
    NoEdgeSpace(line);
    LineFields(id, controllers, path, tail);
  }

  lemma TwoFields(a: string, b: string, rest: string)
    requires ':' !in a && ':' !in b
    ensures Split(a + [':'] + (b + [':'] + rest), ':') == [a] + ([b] + Split(rest, ':'))
  {
    SplitOfFree(a, ':');
    SplitOfFree(b, ':');
    SplitConcat(b, rest, ':');
    SplitConcat(a, b + [':'] + rest, ':');
  }

  lemma LineFields(id: string, controllers: string, path: string, tail: string)
    requires ':' !in id && ':' !in controllers && ':' !in path
    requires tail == "" || tail[0] == ':'
    ensures var parts := Split(id + ":" + controllers + ":" + path + tail, ':');
            |parts| >= 3 && parts[2] == path
  {
    var rest := Split(path + tail, ':');
    FirstField(path, tail);
    TwoFields(id, controllers, path + tail);
    Regroup(id, controllers, path, tail);
    ThirdOf(id, controllers, rest);
  }

  lemma Regroup(id: string, controllers: string, path: string, tail: string)
    ensures id + ":" + controllers + ":" + path + tail == id + [':'] + (controllers + [':'] + (path + tail))
  {
  }

  lemma ThirdOf<T>(a: T, b: T, rest: seq<T>)
    requires rest != []
    ensures ([a] + ([b] + rest))[2] == rest[0]
  {
  }

  lemma FirstField(path: string, tail: string)
    requires ':' !in path && (tail == "" || tail[0] == ':')
    ensures Split(path + tail, ':')[0] == path
  {
    SplitOfFree(path, ':');
    if tail == "" {
      assert path + tail == path;
    } else {
      var rest := tail[1..];
      assert tail == [':'] + rest;
      assert path + tail == path + [':'] + rest;
      SplitConcat(path, rest, ':');
    }
  }
}
