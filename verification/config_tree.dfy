/** The line-driven configuration parser (modules/mod_httpd/http_config.c) and the tree it
    links together (modules/mod_httpd/util_cfgtree.c). */
module ConfigTree {
  import opened Strings
  import opened Wrappers
  import CaseSearch

  // ----- lines -----

  /** A line as split by ap_getword_conf; blank ones and comments are skipped. */
  datatype Line = Blank | Words(cmd: string, args: string)

  /** What a line means: a directive, the start of a section or the end of one. The start keeps
      its '<'; the end is known by the section's name alone, whatever its case. */
  datatype Event = Plain(directive: string, args: string) | Open(directive: string, args: string) | Close(name: string)

  function Lower(s: string): (r: string)
    ensures |r| == |s|
  {
    if s == "" then "" else [CaseSearch.ToLowerH(s[0])] + Lower(s[1..])
  }

  predicate IsCloser(cmd: string) {
    |cmd| >= 2 && cmd[0] == '<' && cmd[1] == '/'
  }

  /** The command name as stored: a final '>' goes, unless the second character is '/'. */
  function Stored(cmd: string): (r: string)
    requires cmd != ""
  {
    if !(|cmd| >= 2 && cmd[1] == '/') && cmd[|cmd| - 1] == '>' then cmd[..|cmd| - 1] else cmd
  }

  /** The end of a section with this name closes it. */
  predicate Closes(cmd: string, directive: string) {
    && IsCloser(cmd) && cmd[|cmd| - 1] == '>' && directive != ""
    && Lower(cmd[2..|cmd| - 1]) == Lower(directive[1..])
  }

  predicate OpensSection(cmd: string) {
    cmd != "" && Stored(cmd) != "" && Stored(cmd)[0] == '<' && !IsCloser(cmd)
  }

  /** Lower forms are free of capitals, differ from what they stand for in nothing but case, and are
      equal for what differs in nothing else. */
  lemma {:induction false} LowerForm(s: string)
    ensures SameName(s, Lower(s)) && forall i :: 0 <= i < |s| ==> !('A' <= Lower(s)[i] <= 'Z')
  {
    if s != "" { LowerForm(s[1..]); }
  }

  lemma {:induction false} LowerIff(a: string, b: string)
    ensures Lower(a) == Lower(b) <==> SameName(a, b)
  {
    if |a| == |b| && a != "" {
      CaseSearch.EitherCase(a[0], b[0]);
      LowerIff(a[1..], b[1..]);
      assert Lower(a)[0] == CaseSearch.ToLowerH(a[0]) && Lower(b)[0] == CaseSearch.ToLowerH(b[0]);
      assert Lower(a)[1..] == Lower(a[1..]) && Lower(b)[1..] == Lower(b[1..]);
      if SameName(a, b) {
        assert SameLetter(a[0], b[0]);
      } else if SameName(a[1..], b[1..]) && SameLetter(a[0], b[0]) {
        forall i | 0 <= i < |a| ensures SameLetter(a[i], b[i]) {
          assert i > 0 ==> SameLetter(a[1..][i - 1], b[1..][i - 1]);
        }
      }
    }
  }

  /** "</a>" closes the section "<b" if and only if the names are the same but for the case of letters. */
  lemma ClosesIff(a: string, b: string)
    ensures Closes("</" + a + ">", "<" + b) <==> |a| == |b| && forall i :: 0 <= i < |a| ==> SameLetter(a[i], b[i])
  {
    var cmd, directive := "</" + a + ">", "<" + b;
    assert cmd[2..|cmd| - 1] == a && directive[1..] == b;
    LowerIff(a, b);
  }

  // ----- well nested lines -----

  /** A document: directives, and sections with a document between their two ends. */
  datatype Doc = Empty | Item(line: Line, rest: Doc) | Section(open: Line, body: Doc, close: Line, rest: Doc)

  predicate IsItem(l: Line) {
    l.Blank? || l.cmd == "" || (!OpensSection(l.cmd) && !IsCloser(l.cmd))
  }

  predicate ValidDoc(d: Doc) {
    match d
    case Empty => true
    case Item(l, rest) => IsItem(l) && ValidDoc(rest)
    case Section(o, body, c, rest) =>
      && o.Words? && OpensSection(o.cmd) && c.Words? && Closes(c.cmd, Stored(o.cmd))
      && ValidDoc(body) && ValidDoc(rest)
  }

  function Flat(d: Doc): seq<Line> {
    match d
    case Empty => []
    case Item(l, rest) => [l] + Flat(rest)
    case Section(o, body, c, rest) => [o] + Flat(body) + [c] + Flat(rest)
  }

  /** The lines are those of some document. */
  ghost predicate WellNested(lines: seq<Line>) {
    exists d :: ValidDoc(d) && Flat(d) == lines
  }

  // ----- the stack of open sections -----

  /** The names of the sections open after the lines, innermost last; None once an end does not fit. */
  function Run(lines: seq<Line>, open: seq<string>): Option<seq<string>> {
    if lines == [] then Some(open)
    else
      match Step(lines[0], open)
      case None => None
      case Some(open') => Run(lines[1..], open')
  }

  function Step(l: Line, open: seq<string>): Option<seq<string>> {
    if IsItem(l) then Some(open)
    else if OpensSection(l.cmd) then Some(open + [Stored(l.cmd)])
    else if open != [] && Closes(l.cmd, open[|open| - 1]) then Some(open[..|open| - 1])
    else None
  }

  lemma {:induction false} RunConcat(a: seq<Line>, b: seq<Line>, open: seq<string>)
    ensures Run(a + b, open) == match Run(a, open) case None => None case Some(o) => Run(b, o)
  {
    if a == [] {
      assert a + b == b;
    } else {
      assert (a + b)[1..] == a[1..] + b;
      match Step(a[0], open)
      case None =>
      case Some(o) => RunConcat(a[1..], b, o);
    }
  }

  lemma {:induction false} DocRuns(d: Doc, open: seq<string>)
    requires ValidDoc(d)
    ensures Run(Flat(d), open) == Some(open)
  {
    match d
    case Empty =>
    case Item(l, rest) =>
      DocRuns(rest, open);
      assert Flat(d)[1..] == Flat(rest);
    case Section(o, body, c, rest) =>
      var inner := open + [Stored(o.cmd)];
      DocRuns(body, inner);
      DocRuns(rest, open);
      RunConcat([o] + Flat(body) + [c], Flat(rest), open);
      RunConcat([o] + Flat(body), [c], open);
      RunConcat([o], Flat(body), open);
      assert [o][1..] == [] && [c][1..] == [];
      assert inner[..|inner| - 1] == open;
  }

  /** The lines, if there are any, start with the end of the innermost open section. */
  ghost predicate AtEnd(lines: seq<Line>, open: seq<string>) {
    lines != [] ==>
      && open != [] && lines[0].Words? && Closes(lines[0].cmd, open[|open| - 1])
      && Step(lines[0], open) == Some(open[..|open| - 1])
  }

  /** The longest document the lines start with; what follows it closes the innermost open section. */
  lemma {:induction false} ParseDoc(lines: seq<Line>, open: seq<string>) returns (d: Doc, rest: seq<Line>)
    requires Run(lines, open).Some? && |Run(lines, open).value| <= |open|
    ensures ValidDoc(d) && lines == Flat(d) + rest && |rest| <= |lines|
    ensures Run(rest, open) == Run(lines, open) && AtEnd(rest, open)
    decreases |lines|
  {
    if lines == [] {
      d, rest := Empty, [];
    } else if IsItem(lines[0]) {
      var d1;
      d1, rest := ParseDoc(lines[1..], open);
      d := Item(lines[0], d1);
      Prefixed(lines, lines[0], Flat(d1), rest);
    } else if OpensSection(lines[0].cmd) {
      var inner := open + [Stored(lines[0].cmd)];
      var body, rest1 := ParseDoc(lines[1..], inner);
      SectionEnds(rest1, open, Stored(lines[0].cmd));
      var d2;
      d2, rest := ParseDoc(rest1[1..], open);
      d := Section(lines[0], body, rest1[0], d2);
      Regrouped(lines, lines[0], Flat(body), rest1, Flat(d2), rest);
    } else {
      d, rest := Empty, lines;
      assert Flat(d) + rest == lines;
    }
  }

  lemma SectionEnds(lines: seq<Line>, open: seq<string>, name: string)
    requires AtEnd(lines, open + [name])
    requires Run(lines, open + [name]).Some? && |Run(lines, open + [name]).value| <= |open|
    ensures lines != [] && lines[0].Words? && Closes(lines[0].cmd, name)
    ensures Run(lines[1..], open) == Run(lines, open + [name])
  {
    var inner := open + [name];
    assert inner[..|inner| - 1] == open && inner[|inner| - 1] == name;
  }

  lemma Prefixed(lines: seq<Line>, l: Line, d: seq<Line>, rest: seq<Line>)
    requires lines != [] && lines[0] == l && lines[1..] == d + rest
    ensures lines == ([l] + d) + rest
  {
    assert lines == [l] + lines[1..];
  }

  lemma Regrouped(lines: seq<Line>, l: Line, body: seq<Line>, rest1: seq<Line>, d2: seq<Line>, rest: seq<Line>)
    requires lines != [] && lines[0] == l && lines[1..] == body + rest1 && rest1 != [] && rest1[1..] == d2 + rest
    ensures lines == ([l] + body + [rest1[0]] + d2) + rest
  {
    assert lines == [l] + lines[1..];
    assert rest1 == [rest1[0]] + rest1[1..];
  }

  /** The stack ends empty exactly on the lines of a document. */
  lemma NestedIff(lines: seq<Line>)
    ensures Run(lines, []) == Some([]) <==> WellNested(lines)
  {
    if Run(lines, []) == Some([]) {
      var d, rest := ParseDoc(lines, []);
      assert Flat(d) + [] == Flat(d);
    }
    if WellNested(lines) {
      var d :| ValidDoc(d) && Flat(d) == lines;
      DocRuns(d, []);
    }
  }

  // ----- trees -----

  /** A list of sibling nodes, the last one outermost; a node is known by its place in the order
      of creation and has a list of children. */
  datatype Forest = Nil | Snoc(init: Forest, id: nat, kids: Forest)

  /** What a node holds, its pointers being places in the order of creation or -1. */
  datatype Links = Links(directive: string, args: string, next: int, child: int, parent: int)

  function First(f: Forest, otherwise: int): int {
    match f
    case Nil => otherwise
    case Snoc(init, id, _) => First(init, id)
  }

  /** Every place in f lies between lo and hi, and places grow in reading order. */
  ghost predicate In(f: Forest, lo: nat, hi: nat) {
    match f
    case Nil => true
    case Snoc(init, id, kids) => lo <= id < hi && In(init, lo, id) && In(kids, id + 1, hi)
  }

  /** The nodes link up the siblings f under `parent`; the last one is followed by `follow`. */
  ghost predicate Chain(s: seq<Links>, f: Forest, parent: int, follow: int) {
    match f
    case Nil => true
    case Snoc(init, id, kids) =>
      && id < |s| && s[id].parent == parent && s[id].next == follow && s[id].child == First(kids, -1)
      && (kids != Nil ==> IsSection(s[id])) && Chain(s, kids, id, -1) && Chain(s, init, parent, id)
  }

  predicate IsSection(n: Links) {
    n.directive != "" && n.directive[0] == '<'
  }

  function NodeEvent(n: Links): Event {
    if IsSection(n) then Open(n.directive, n.args) else Plain(n.directive, n.args)
  }

  function CloserOf(directive: string): Event
    requires directive != ""
  {
    Close(Lower(directive[1..]))
  }

  /** Reading the siblings in order, each section followed by its children and its end. */
  ghost function Read(s: seq<Links>, f: Forest): seq<Event> {
    match f
    case Nil => []
    case Snoc(init, id, kids) =>
      if id >= |s| then Read(s, init)
      else Read(s, init) + [NodeEvent(s[id])] + (if IsSection(s[id]) then Read(s, kids) + [CloserOf(s[id].directive)] else [])
  }

  ghost predicate SameOn(s: seq<Links>, t: seq<Links>, lo: nat, hi: nat) {
    hi <= |s| && hi <= |t| && forall i :: lo <= i < hi ==> s[i] == t[i]
  }

  lemma {:induction false} ChainKept(s: seq<Links>, t: seq<Links>, f: Forest, lo: nat, hi: nat, parent: int, follow: int)
    requires In(f, lo, hi) && SameOn(s, t, lo, hi)
    ensures Chain(s, f, parent, follow) <==> Chain(t, f, parent, follow)
    ensures Read(s, f) == Read(t, f)
    decreases f
  {
    if f.Snoc? {
      ChainKept(s, t, f.init, lo, f.id, parent, f.id);
      ChainKept(s, t, f.kids, f.id + 1, hi, f.id, -1);
    }
  }

  lemma {:induction false} InWider(f: Forest, lo: nat, hi: nat, hi': nat)
    requires In(f, lo, hi) && hi <= hi'
    ensures In(f, lo, hi')
    decreases f
  {
    if f.Snoc? {
      InWider(f.kids, f.id + 1, hi, hi');
    }
  }

  /** The last sibling gets a follower; nothing else is looked at. */
  lemma LinkLast(s: seq<Links>, t: seq<Links>, f: Forest, lo: nat, parent: int, follow: int, follow': int)
    requires f.Snoc? && In(f, lo, |s|) && Chain(s, f, parent, follow)
    requires t == s[f.id := s[f.id].(next := follow')]
    ensures Chain(t, f, parent, follow') && Read(t, f) == Read(s, f)
  {
    ChainKept(s, t, f.init, lo, f.id, parent, f.id);
    ChainKept(s, t, f.kids, f.id + 1, |s|, f.id, -1);
  }

  // ----- the tree while sections are open -----

  /** Finished siblings at the outermost level, or inside a section still open. */
  datatype Zip = Top(done: Forest) | Down(up: Zip, sec: nat, done: Forest)

  function Sec(z: Zip): int {
    if z.Top? then -1 else z.sec
  }

  /** The last finished sibling of the innermost level, or -1. */
  function Current(z: Zip): int {
    if z.done.Snoc? then z.done.id else -1
  }

  function Lowest(z: Zip): nat {
    if z.Top? then 0 else z.sec + 1
  }

  ghost predicate InZip(z: Zip, hi: nat) {
    In(z.done, Lowest(z), hi) && (z.Down? ==> z.sec < hi && InZip(z.up, z.sec))
  }

  /** The nodes link up all levels; the innermost list is followed by `follow`. */
  ghost predicate Levels(s: seq<Links>, z: Zip, head: int, follow: int) {
    && Chain(s, z.done, Sec(z), follow)
    && match z
       case Top(done) => head == First(done, follow)
       case Down(up, sec, done) =>
         && sec < |s| && IsSection(s[sec]) && s[sec].parent == Sec(up) && s[sec].next == -1
         && s[sec].child == First(done, follow) && Levels(s, up, head, sec)
  }

  /** What has been read so far. */
  ghost function ReadZip(s: seq<Links>, z: Zip): seq<Event> {
    match z
    case Top(done) => Read(s, done)
    case Down(up, sec, done) => ReadZip(s, up) + (if sec < |s| then [NodeEvent(s[sec])] else []) + Read(s, done)
  }

  /** The names of the open sections, innermost last. */
  ghost function OpenNames(s: seq<Links>, z: Zip): seq<string> {
    match z
    case Top(_) => []
    case Down(up, sec, _) => OpenNames(s, up) + (if sec < |s| then [s[sec].directive] else [])
  }

  lemma {:induction false} LevelsKept(s: seq<Links>, t: seq<Links>, z: Zip, hi: nat, head: int, follow: int)
    requires InZip(z, hi) && SameOn(s, t, 0, hi)
    ensures Levels(s, z, head, follow) <==> Levels(t, z, head, follow)
    ensures ReadZip(s, z) == ReadZip(t, z) && OpenNames(s, z) == OpenNames(t, z)
    decreases z
  {
    ChainKept(s, t, z.done, Lowest(z), hi, Sec(z), follow);
    if z.Down? {
      LevelsKept(s, t, z.up, z.sec, head, z.sec);
    }
  }

  /** A node is linked in after all others, by the pointer that has to lead to it. */
  function Attach(s: seq<Links>, z: Zip, head: int, n: nat): (r: (seq<Links>, int))
    requires z.done.Snoc? ==> z.done.id < |s|
    requires z.Down? ==> z.sec < |s|
    ensures |r.0| == |s|
  {
    if z.done.Snoc? then (s[z.done.id := s[z.done.id].(next := n)], head)
    else if z.Down? then (s[z.sec := s[z.sec].(child := n)], head)
    else (s, n)
  }

  lemma AttachLevels(s: seq<Links>, z: Zip, head: int, n: nat)
    requires InZip(z, |s|) && Levels(s, z, head, -1)
    ensures var r := Attach(s, z, head, n);
      Levels(r.0, z, r.1, n) && ReadZip(r.0, z) == ReadZip(s, z) && OpenNames(r.0, z) == OpenNames(s, z)
  {
    var r := Attach(s, z, head, n);
    if z.done.Snoc? {
      LinkLast(s, r.0, z.done, Lowest(z), Sec(z), -1, n);
    }
    if z.Down? {
      LevelsKept(s, r.0, z.up, z.sec, head, z.sec);
    }
  }

  function NewNode(directive: string, args: string, parent: int): Links {
    Links(directive, args, -1, -1, parent)
  }

  /** The nodes after a new one has been linked in behind all others. */
  function Added(s: seq<Links>, z: Zip, head: int, directive: string, args: string): (r: (seq<Links>, int))
    requires z.done.Snoc? ==> z.done.id < |s|
    requires z.Down? ==> z.sec < |s|
    ensures |r.0| == |s| + 1
  {
    (Attach(s, z, head, |s|).0 + [NewNode(directive, args, Sec(z))], Attach(s, z, head, |s|).1)
  }

  ghost predicate Tree(s: seq<Links>, z: Zip, head: int) {
    InZip(z, |s|) && Levels(s, z, head, -1)
  }

  function WithDone(z: Zip, done: Forest): Zip {
    match z
    case Top(_) => Top(done)
    case Down(up, sec, _) => Down(up, sec, done)
  }

  lemma AddedKeeps(s: seq<Links>, z: Zip, head: int, directive: string, args: string)
    requires Tree(s, z, head)
    ensures var r := Added(s, z, head, directive, args);
      && InZip(z, |s|) && Levels(r.0, z, r.1, |s|)
      && ReadZip(r.0, z) == ReadZip(s, z) && OpenNames(r.0, z) == OpenNames(s, z)
  {
    AttachLevels(s, z, head, |s|);
    var t := Attach(s, z, head, |s|);
    LevelsKept(t.0, t.0 + [NewNode(directive, args, Sec(z))], z, |s|, t.1, |s|);
  }

  lemma AddPlain(s: seq<Links>, z: Zip, head: int, directive: string, args: string)
    requires Tree(s, z, head) && (directive == "" || directive[0] != '<')
    ensures var r := Added(s, z, head, directive, args); var z' := WithDone(z, Snoc(z.done, |s|, Nil));
      && Tree(r.0, z', r.1) && OpenNames(r.0, z') == OpenNames(s, z)
      && ReadZip(r.0, z') == ReadZip(s, z) + [Plain(directive, args)]
  {
    AddedKeeps(s, z, head, directive, args);
    var r := Added(s, z, head, directive, args);
    assert r.0[|s|] == NewNode(directive, args, Sec(z));
    PlainTree(r.0, z, r.1, |s|);
    PlainReads(r.0, z, |s|, Plain(directive, args));
  }

  lemma PlainTree(s: seq<Links>, z: Zip, head: int, n: nat)
    requires InZip(z, n) && |s| == n + 1 && Levels(s, z, head, n)
    requires s[n].next == s[n].child == -1 && s[n].parent == Sec(z) && !IsSection(s[n])
    ensures Tree(s, WithDone(z, Snoc(z.done, n, Nil)), head)
    ensures OpenNames(s, WithDone(z, Snoc(z.done, n, Nil))) == OpenNames(s, z)
  {
  }

  lemma PlainReads(s: seq<Links>, z: Zip, n: nat, e: Event)
    requires InZip(z, n) && n < |s| && NodeEvent(s[n]) == e && e.Plain?
    ensures ReadZip(s, WithDone(z, Snoc(z.done, n, Nil))) == ReadZip(s, z) + [e]
  {
    var d := Read(s, z.done);
    assert Read(s, Snoc(z.done, n, Nil)) == d + [e];
    if z.Down? {
      assert ReadZip(s, z.up) + [NodeEvent(s[z.sec])] + (d + [e]) == ReadZip(s, z.up) + [NodeEvent(s[z.sec])] + d + [e];
    }
  }

  lemma AddOpen(s: seq<Links>, z: Zip, head: int, directive: string, args: string)
    requires Tree(s, z, head) && directive != "" && directive[0] == '<'
    ensures var r := Added(s, z, head, directive, args); var z' := Down(z, |s|, Nil);
      && Tree(r.0, z', r.1) && OpenNames(r.0, z') == OpenNames(s, z) + [directive]
      && ReadZip(r.0, z') == ReadZip(s, z) + [Open(directive, args)]
  {
    AddedKeeps(s, z, head, directive, args);
    var r := Added(s, z, head, directive, args);
    assert r.0[|s|] == NewNode(directive, args, Sec(z));
    var e := ReadZip(r.0, z) + [Open(directive, args)];
    assert e + [] == e;
  }

  /** The innermost section is finished: it joins the siblings one level up. */
  function Finished(z: Zip): Zip
    requires z.Down?
  {
    WithDone(z.up, Snoc(z.up.done, z.sec, z.done))
  }

  lemma FinishSection(s: seq<Links>, z: Zip, head: int)
    requires Tree(s, z, head) && z.Down?
    ensures Tree(s, Finished(z), head)
    ensures OpenNames(s, z) == OpenNames(s, Finished(z)) + [s[z.sec].directive]
    ensures ReadZip(s, Finished(z)) == ReadZip(s, z) + [CloserOf(s[z.sec].directive)]
  {
    FinishedTree(s, z, head);
    FinishedReads(s, z);
  }

  lemma FinishedTree(s: seq<Links>, z: Zip, head: int)
    requires Tree(s, z, head) && z.Down?
    ensures Tree(s, Finished(z), head)
    ensures z.sec < |s| && IsSection(s[z.sec]) && (z.up.Down? ==> z.up.sec < |s|)
  {
    assert InZip(z.up, z.sec) && Levels(s, z.up, head, z.sec);
  }

  lemma FinishedReads(s: seq<Links>, z: Zip)
    requires z.Down? && z.sec < |s| && IsSection(s[z.sec]) && (z.up.Down? ==> z.up.sec < |s|)
    ensures ReadZip(s, Finished(z)) == ReadZip(s, z) + [CloserOf(s[z.sec].directive)]
  {
    var up, sec, done := z.up, z.sec, z.done;
    var d, e, r, c := Read(s, up.done), [NodeEvent(s[sec])], Read(s, done), [CloserOf(s[sec].directive)];
    assert Read(s, Snoc(up.done, sec, done)) == d + e + (r + c);
    match up
    case Top(_) =>
      Around(d, e, r, c);
    case Down(up2, sec2, _) =>
      Behind(ReadZip(s, up2) + [NodeEvent(s[sec2])], d, e, r, c);
  }

  lemma Around<T>(d: seq<T>, e: seq<T>, r: seq<T>, c: seq<T>)
    ensures d + e + (r + c) == d + e + r + c
  {
  }

  lemma Behind<T>(front: seq<T>, d: seq<T>, e: seq<T>, r: seq<T>, c: seq<T>)
    ensures front + (d + e + (r + c)) == (front + d) + e + r + c
  {
  }

  predicate StartsSection(cmd: string) {
    cmd != "" && cmd[0] == '<'
  }

  function AfterAdd(z: Zip, n: nat, section: bool): Zip {
    if section then Down(z, n, Nil) else WithDone(z, Snoc(z.done, n, Nil))
  }

  lemma AddAny(s: seq<Links>, z: Zip, head: int, cmd: string, args: string)
    requires Tree(s, z, head)
    ensures var r := Added(s, z, head, cmd, args); var z' := AfterAdd(z, |s|, StartsSection(cmd));
      && Tree(r.0, z', r.1) && OpenNames(r.0, z') == OpenNames(s, z) + (if StartsSection(cmd) then [cmd] else [])
      && ReadZip(r.0, z') == ReadZip(s, z) + [if StartsSection(cmd) then Open(cmd, args) else Plain(cmd, args)]
      && r.1 == (if z == Top(Nil) then |s| else head)
  {
    if StartsSection(cmd) {
      AddOpen(s, z, head, cmd, args);
    } else {
      AddPlain(s, z, head, cmd, args);
      assert OpenNames(s, z) + [] == OpenNames(s, z);
    }
  }

  // ----- the nodes in memory -----

  class Directive {
    const directive: string
    const args: string
    var next: Directive?
    var first_child: Directive?
    var parent: Directive?

    constructor (directive: string, args: string)
      ensures this.directive == directive && this.args == args
      ensures next == null && first_child == null && parent == null
    {
      this.directive, this.args := directive, args;
      next, first_child, parent := null, null, null;
    }
  }

  function At(order: seq<Directive>, k: int): Directive? {
    if 0 <= k < |order| then order[k] else null
  }

  /** The i-th object holds what s says of it. */
  ghost predicate NodeHolds(order: seq<Directive>, s: seq<Links>, i: nat)
    reads order
    requires i < |order| && i < |s|
  {
    && s[i].next < |s| && s[i].child < |s| && s[i].parent < |s|
    && order[i].directive == s[i].directive && order[i].args == s[i].args
    && order[i].next == At(order, s[i].next) && order[i].first_child == At(order, s[i].child)
    && order[i].parent == At(order, s[i].parent)
  }

  ghost predicate Differ(order: seq<Directive>, i: nat, j: nat)
    requires i < |order| && j < |order|
  {
    order[i] != order[j]
  }

  /** The objects, in order of creation, hold what s says. */
  ghost predicate Holds(order: seq<Directive>, s: seq<Links>)
    reads order
  {
    && |order| == |s|
    && (forall i, j :: 0 <= i < j < |order| ==> Differ(order, i, j))
    && (forall i :: 0 <= i < |s| ==> NodeHolds(order, s, i))
  }

  /** add_directive_node: links toadd in after `current`, or as the first child of `parent`;
      `child` says that what follows goes inside it. */
  method AddDirectiveNode(parent0: Directive?, current: Directive?, toadd: Directive, child: bool)
    returns (parent: Directive?, node: Directive?)
    requires toadd.next == toadd.first_child == toadd.parent == null
    requires current != toadd && parent0 != toadd
    modifies if current != null then {current} else if parent0 != null then {parent0} else {}, toadd
    ensures toadd.parent == parent0 && toadd.next == null && toadd.first_child == null
    ensures current != null ==>
      current.next == toadd && current.first_child == old(current.first_child) && current.parent == old(current.parent)
    ensures current == null && parent0 != null ==>
      parent0.first_child == toadd && parent0.next == old(parent0.next) && parent0.parent == old(parent0.parent)
    ensures parent == (if child then toadd else parent0) && node == (if child then null else toadd)
  {
    parent := parent0;
    if current == null {
      if parent != null {
        parent.first_child := toadd;
        toadd.parent := parent;
      }
      if child {
        parent := toadd;
        return parent, null;
      }
      return parent, toadd;
    }
    current.next := toadd;
    toadd.parent := parent;
    if child {
      parent := toadd;
      return parent, null;
    }
    return parent, toadd;
  }

  lemma Places(s: seq<Links>, z: Zip, head: int)
    requires Tree(s, z, head)
    ensures Current(z) < |s| && Sec(z) < |s| && head < |s|
    ensures (z.done.Snoc? ==> 0 <= Current(z)) && (z.Down? ==> 0 <= Sec(z))
    ensures head < 0 <==> z == Top(Nil)
    ensures z.Down? ==> s[z.sec].parent == Sec(z.up)
    decreases z
  {
    FirstPlace(z.done, Lowest(z), |s|);
    if z.Down? {
      HeadPlace(s, z.up, z.sec, head);
    }
  }

  lemma {:induction false} FirstPlace(f: Forest, lo: nat, hi: nat)
    requires In(f, lo, hi)
    ensures f.Snoc? ==> lo <= First(f, -1) < hi && forall k :: First(f, k) == First(f, -1)
    decreases f
  {
    if f.Snoc? {
      FirstPlace(f.init, lo, f.id);
    }
  }

  lemma {:induction false} HeadPlace(s: seq<Links>, z: Zip, follow: nat, head: int)
    requires InZip(z, follow) && Levels(s, z, head, follow)
    ensures 0 <= head <= follow
    decreases z
  {
    FirstPlace(z.done, Lowest(z), follow);
    if z.Down? {
      HeadPlace(s, z.up, z.sec, head);
    }
  }

  /** A new object takes its place in the tree. */
  method AddNode(ghost order: seq<Directive>, ghost s: seq<Links>, ghost z: Zip, ghost head: int,
                 currParent0: Directive?, current0: Directive?, newdir: Directive, child: bool)
    returns (currParent: Directive?, current: Directive?)
    requires Holds(order, s) && Tree(s, z, head) && newdir !in order
    requires newdir.next == newdir.first_child == newdir.parent == null
    requires currParent0 == At(order, Sec(z)) && current0 == At(order, Current(z))
    modifies (set o: Directive | o in order :: o), newdir
    ensures z.done.Snoc? ==> z.done.id < |s|
    ensures z.Down? ==> z.sec < |s|
    ensures Holds(order + [newdir], Added(s, z, head, newdir.directive, newdir.args).0)
    ensures currParent == (if child then newdir else currParent0) && current == (if child then null else newdir)
  {
    Places(s, z, head);
    ghost var order' := order + [newdir];
    ghost var s' := Added(s, z, head, newdir.directive, newdir.args).0;
    assert currParent0 != null ==> currParent0 in order;
    assert current0 != null ==> current0 in order;
    currParent, current := AddDirectiveNode(currParent0, current0, newdir, child);
    ghost var m := if z.done.Snoc? then Current(z) else Sec(z);
    forall i | 0 <= i < |s'| ensures NodeHolds(order', s', i) {
      if i < |s| {
        assert old(NodeHolds(order, s, i));
        assert i < m ==> Differ(order, i, m);
        assert 0 <= m < i ==> Differ(order, m, i);
      }
    }
    forall i, j | 0 <= i < j < |order'| ensures Differ(order', i, j) {
      if j < |s| { assert Differ(order, i, j); }
    }
  }

  ghost predicate IsSibling(f: Forest, k: int) {
    f.Snoc? && (k == f.id || IsSibling(f.init, k))
  }

  lemma {:induction false} SiblingNext(s: seq<Links>, f: Forest, lo: nat, hi: nat, parent: int, follow: int, k: int)
    requires In(f, lo, hi) && hi <= |s| && Chain(s, f, parent, follow) && IsSibling(f, k)
    ensures lo <= k <= f.id
    ensures if k == f.id then s[k].next == follow else k < s[k].next && IsSibling(f, s[k].next)
    decreases f
  {
    if k != f.id {
      SiblingNext(s, f.init, lo, f.id, parent, f.id, k);
    }
  }

  lemma {:induction false} FirstIsSibling(f: Forest)
    ensures f.Snoc? ==> IsSibling(f, First(f, -1)) && forall k :: First(f, k) == First(f, -1)
  {
    if f.Snoc? { FirstIsSibling(f.init); }
  }

  /** From sibling to sibling by the pointer in memory. */
  lemma FollowNext(order: seq<Directive>, s: seq<Links>, f: Forest, k: int)
    requires Holds(order, s) && In(f, 0, |s|) && Chain(s, f, -1, -1) && IsSibling(f, k)
    ensures 0 <= k <= f.id < |order|
    ensures if k == f.id then order[k].next == null
            else k < s[k].next <= f.id && IsSibling(f, s[k].next) && order[k].next == order[s[k].next]
  {
    SiblingNext(s, f, 0, |s|, -1, -1, k);
    assert NodeHolds(order, s, k);
    if k != f.id {
      SiblingNext(s, f, 0, |s|, -1, -1, s[k].next);
    }
  }

  // ----- the parser -----

  /** What the lines say, blank ones left out. */
  function Events(lines: seq<Line>): seq<Event> {
    if lines == [] then [] else EventOf(lines[0]) + Events(lines[1..])
  }

  function EventOf(l: Line): seq<Event> {
    if l.Blank? || l.cmd == "" then []
    else if IsCloser(l.cmd) then [Close(Lower(l.cmd[2..if |l.cmd| > 2 then |l.cmd| - 1 else 2]))]
    else if OpensSection(l.cmd) then [Open(Stored(l.cmd), l.args)]
    else [Plain(Stored(l.cmd), l.args)]
  }

  /** "<name>", or "<name" with arguments behind it, starts a section of that name. */
  lemma SectionLine(name: string, args: string)
    requires name != "" && name[0] != '/' && name[|name| - 1] != '>'
    ensures OpensSection("<" + name) && EventOf(Words("<" + name, args)) == [Open("<" + name, args)]
    ensures OpensSection("<" + name + ">") && EventOf(Words("<" + name + ">", args)) == [Open("<" + name, args)]
  {
    var cmd := "<" + name + ">";
    assert cmd[..|cmd| - 1] == "<" + name;
  }

  /** "</name>" is the end of a section, whatever the case of the name. */
  lemma EndLine(name: string, args: string)
    ensures var cmd := "</" + name + ">";
      IsCloser(cmd) && !OpensSection(cmd) && EventOf(Words(cmd, args)) == [Close(Lower(name))]
  {
    var cmd := "</" + name + ">";
    assert cmd[2..|cmd| - 1] == name;
  }

  /** "</" alone is the end of no section, and always an error. */
  lemma BareEnd(args: string, open: seq<string>)
    ensures Step(Words("</", args), open) == None
  {
    assert Stored("</") == "</";
  }

  /** Any other line is a directive. */
  lemma PlainLine(cmd: string, args: string)
    requires cmd != "" && cmd[0] != '<' && cmd[|cmd| - 1] != '>'
    ensures IsItem(Words(cmd, args)) && EventOf(Words(cmd, args)) == [Plain(cmd, args)]
  {
  }

  /** Read from where `open` are the open sections and `read` has been read, the lines end up with these. */
  ghost predicate LeadTo(lines: seq<Line>, open: seq<string>, read: seq<Event>, end: Option<seq<string>>, all: seq<Event>) {
    Run(lines, open) == end && read + Events(lines) == all
  }

  lemma AllRead(lines: seq<Line>, end: Option<seq<string>>, all: seq<Event>, open: seq<string>, read: seq<Event>)
    requires LeadTo(lines[|lines|..], open, read, end, all)
    ensures end == Some(open) && all == read
  {
  }

  /** The parser between two lines. */
  ghost predicate Parsing(order: seq<Directive>, s: seq<Links>, z: Zip, head: int,
                          conftree: Directive?, currParent: Directive?, current: Directive?)
    reads order
  {
    && Holds(order, s) && Tree(s, z, head)
    && conftree == At(order, head) && currParent == At(order, Sec(z)) && current == At(order, Current(z))
  }

  /** Where the parser stands after a new node. */
  lemma AddedParsing(order: seq<Directive>, newdir: Directive, s: seq<Links>, z: Zip, head: int, cmd: string, args: string,
                     s': seq<Links>, z': Zip, head': int, conftree: Directive?, currParent: Directive?, current: Directive?)
    requires Tree(s, z, head) && |order| == |s|
    requires (s', head') == Added(s, z, head, cmd, args) && z' == AfterAdd(z, |s|, StartsSection(cmd))
    requires Holds(order + [newdir], s')
    requires conftree == (if head < 0 then newdir else At(order, head))
    requires currParent == (if StartsSection(cmd) then newdir else At(order, Sec(z)))
    requires current == (if StartsSection(cmd) then null else newdir)
    ensures Parsing(order + [newdir], s', z', head', conftree, currParent, current)
    ensures OpenNames(s', z') == OpenNames(s, z) + (if StartsSection(cmd) then [cmd] else [])
    ensures ReadZip(s', z') == ReadZip(s, z) + [if StartsSection(cmd) then Open(cmd, args) else Plain(cmd, args)]
  {
    Places(s, z, head);
    AddAny(s, z, head, cmd, args);
  }

  class Config {
    var conftree: Directive?
    ghost var order: seq<Directive>
    ghost var nodes: seq<Links>
    ghost var forest: Forest

    /** The tree hangs from conftree, all sections finished. */
    ghost predicate Valid()
      reads this, order
    {
      Parsing(order, nodes, Top(forest), First(forest, -1), conftree, null, At(order, Current(Top(forest))))
    }

    /** The tree read in pre-order, with the ends of the sections put back in. */
    ghost function Contents(): seq<Event>
      reads this
    {
      Read(nodes, forest)
    }

    /** The nodes of the tree. */
    ghost function Objects(): set<object>
      reads this
    {
      set o: Directive | o in order :: o
    }

    constructor ()
      ensures Valid() && Contents() == [] && order == []
    {
      conftree, order, nodes, forest := null, [], [], Nil;
    }

    /** Lines 620-624: the last node of the outermost list. */
    method LastSibling() returns (current: Directive?)
      requires Valid()
      ensures current == At(order, Current(Top(forest)))
    {
      current := conftree;
      Places(nodes, Top(forest), First(forest, -1));
      if current != null {
        FirstIsSibling(forest);
        ghost var k := First(forest, -1);
        FollowNext(order, nodes, forest, k);
        while current.next != null
          invariant IsSibling(forest, k) && 0 <= k <= forest.id < |order| && current == order[k]
          invariant k == forest.id ==> current.next == null
          decreases forest.id - k
        {
          FollowNext(order, nodes, forest, k);
          current := current.next;
          k := nodes[k].next;
          FollowNext(order, nodes, forest, k);
        }
        FollowNext(order, nodes, forest, k);
      }
    }

    /** Lines 568-570, 631-639: a directive or the start of a section. */
    method AddDirective(cmd: string, args: string, ghost z: Zip, ghost head: int, currParent0: Directive?, current0: Directive?)
      returns (currParent: Directive?, current: Directive?, ghost z': Zip, ghost head': int)
      requires Parsing(order, nodes, z, head, conftree, currParent0, current0)
      modifies this, Objects()
      ensures Parsing(order, nodes, z', head', conftree, currParent, current)
      ensures OpenNames(nodes, z') == old(OpenNames(nodes, z)) + (if StartsSection(cmd) then [cmd] else [])
      ensures ReadZip(nodes, z') == old(ReadZip(nodes, z)) + [if StartsSection(cmd) then Open(cmd, args) else Plain(cmd, args)]
      ensures fresh(Objects() - old(Objects()))
    {
      Places(nodes, z, head);
      var newdir := new Directive(cmd, args);
      z', head' := AfterAdd(z, |nodes|, StartsSection(cmd)), Added(nodes, z, head, cmd, args).1;
      currParent, current := AddNode(order, nodes, z, head, currParent0, current0, newdir, StartsSection(cmd));
      HangUp(currParent, current);
      ghost var nodes' := Added(nodes, z, head, cmd, args).0;
      AddedParsing(order, newdir, nodes, z, head, cmd, args, nodes', z', head', conftree, currParent, current);
      order, nodes := order + [newdir], nodes';
    }

    /** Lines 631-637: the first node becomes the tree. */
    method HangUp(currParent: Directive?, current: Directive?)
      modifies this`conftree
      ensures conftree == if old(conftree) != null then old(conftree) else if currParent != null then currParent else current
    {
      if conftree == null && currParent != null {
        conftree := currParent;
      }
      if conftree == null && current != null {
        conftree := current;
      }
    }

    /** Lines 536-566: the end of a section. */
    method EndSection(cmd: string, ghost z: Zip, ghost head: int, currParent0: Directive?, current0: Directive?)
      returns (ok: bool, currParent: Directive?, current: Directive?, ghost z': Zip)
      requires IsCloser(cmd) && Parsing(order, nodes, z, head, conftree, currParent0, current0)
      ensures ok <==> OpenNames(nodes, z) != [] && Closes(cmd, OpenNames(nodes, z)[|OpenNames(nodes, z)| - 1])
      ensures ok ==> Parsing(order, nodes, z', head, conftree, currParent, current)
      ensures ok ==> OpenNames(nodes, z') == OpenNames(nodes, z)[..|OpenNames(nodes, z)| - 1]
      ensures ok ==> ReadZip(nodes, z') == ReadZip(nodes, z) + [Close(Lower(cmd[2..|cmd| - 1]))]
    {
      currParent, current, z' := currParent0, current0, z;
      Places(nodes, z, head);
      if currParent == null {
        return false, currParent, current, z';
      }
      FinishSection(nodes, z, head);
      assert NodeHolds(order, nodes, z.sec);
      if cmd[|cmd| - 1] != '>' {
        return false, currParent, current, z';
      }
      if Lower(cmd[2..|cmd| - 1]) != Lower(currParent.directive[1..]) {
        return false, currParent, current, z';
      }
      ok := true;
      current := currParent;
      currParent := current.parent;
      z' := Finished(z);
    }

    /** One line. The error branch is taken exactly when the line does not fit the open sections. */
    method BuildSub(l: Line, ghost z: Zip, ghost head: int, currParent0: Directive?, current0: Directive?)
      returns (ok: bool, currParent: Directive?, current: Directive?, ghost z': Zip, ghost head': int)
      requires Parsing(order, nodes, z, head, conftree, currParent0, current0)
      modifies this, Objects()
      ensures ok <==> Step(l, old(OpenNames(nodes, z))).Some?
      ensures ok ==> Parsing(order, nodes, z', head', conftree, currParent, current)
      ensures ok ==> OpenNames(nodes, z') == Step(l, old(OpenNames(nodes, z))).value
      ensures ok ==> ReadZip(nodes, z') == old(ReadZip(nodes, z)) + EventOf(l)
      ensures fresh(Objects() - old(Objects()))
    {
      currParent, current, z', head', ok := currParent0, current0, z, head, true;
      if l.Blank? || l.cmd == "" {
        assert ReadZip(nodes, z) + [] == ReadZip(nodes, z);
      } else {
        var cmd := Stored(l.cmd);
        if IsCloser(cmd) {
          ok, currParent, current, z' := EndSection(cmd, z, head, currParent, current);
        } else {
          currParent, current, z', head' := AddDirective(cmd, l.args, z, head, currParent, current);
        }
      }
    }

    /** The line at i: whatever the lines from there on lead to, those behind it now do. */
    method BuildNext(lines: seq<Line>, i: nat, ghost end: Option<seq<string>>, ghost all: seq<Event>,
                     ghost z: Zip, ghost head: int, currParent0: Directive?, current0: Directive?)
      returns (ok: bool, currParent: Directive?, current: Directive?, ghost z': Zip, ghost head': int)
      requires i < |lines| && Parsing(order, nodes, z, head, conftree, currParent0, current0)
      requires LeadTo(lines[i..], OpenNames(nodes, z), ReadZip(nodes, z), end, all)
      modifies this, Objects()
      ensures !ok ==> end == None
      ensures ok ==> Parsing(order, nodes, z', head', conftree, currParent, current)
      ensures ok ==> LeadTo(lines[i + 1..], OpenNames(nodes, z'), ReadZip(nodes, z'), end, all)
      ensures fresh(Objects() - old(Objects()))
    {
      assert lines[i..][1..] == lines[i + 1..];
      Regroup(ReadZip(nodes, z), EventOf(lines[i]), Events(lines[i + 1..]));
      ok, currParent, current, z', head' := BuildSub(lines[i], z, head, currParent0, current0);
    }

    /** The loop of ap_build_config. */
    method BuildLines(lines: seq<Line>, ghost end: Option<seq<string>>, ghost all: seq<Event>,
                      ghost z0: Zip, ghost head0: int, currParent0: Directive?, current0: Directive?)
      returns (ok: bool, currParent: Directive?, current: Directive?, ghost z: Zip, ghost head: int)
      requires Parsing(order, nodes, z0, head0, conftree, currParent0, current0)
      requires end == Run(lines, OpenNames(nodes, z0)) && all == ReadZip(nodes, z0) + Events(lines)
      modifies this, Objects()
      ensures ok <==> end.Some?
      ensures ok ==> Parsing(order, nodes, z, head, conftree, currParent, current)
      ensures ok ==> end == Some(OpenNames(nodes, z)) && all == ReadZip(nodes, z)
    {
      currParent, current, z, head, ok := currParent0, current0, z0, head0, true;
      var i := 0;
      assert lines[0..] == lines;
      while i < |lines|
        invariant 0 <= i <= |lines|
        invariant Parsing(order, nodes, z, head, conftree, currParent, current)
        invariant LeadTo(lines[i..], OpenNames(nodes, z), ReadZip(nodes, z), end, all)
        invariant fresh(Objects() - old(Objects()))
      {
        ok, currParent, current, z, head := BuildNext(lines, i, end, all, z, head, currParent, current);
        if !ok {
          return;
        }
        i := i + 1;
      }
      AllRead(lines, end, all, OpenNames(nodes, z), ReadZip(nodes, z));
      ok := true;
    }

    /** ap_build_config: reads the lines into the tree behind what it holds already. It succeeds
        exactly on well nested lines, and the tree then reads as it did before, followed by them. */
    method Build(lines: seq<Line>) returns (ok: bool)
      requires Valid()
      modifies this, Objects()
      ensures ok <==> WellNested(lines)
      ensures ok ==> Valid() && Contents() == old(Contents()) + Events(lines)
    {
      var current := LastSibling();
      var currParent: Directive? := null;
      ghost var z, head := Top(forest), First(forest, -1);
      NestedIff(lines);
      ghost var end, all := Run(lines, OpenNames(nodes, z)), ReadZip(nodes, z) + Events(lines);
      ok, currParent, current, z, head := BuildLines(lines, end, all, z, head, currParent, current);
      if ok {
        Places(nodes, z, head);
        OpenCount(nodes, z);
        ok := currParent == null;
        forest := if ok then z.done else forest;
      }
    }
  }

  lemma {:induction false} EventsConcat(a: seq<Line>, b: seq<Line>)
    ensures Events(a + b) == Events(a) + Events(b)
  {
    if a == [] {
      assert a + b == b;
    } else {
      assert (a + b)[1..] == a[1..] + b;
      EventsConcat(a[1..], b);
      Regroup(EventOf(a[0]), Events(a[1..]), Events(b));
    }
  }

  lemma EventsOne(l: Line)
    ensures Events([l]) == EventOf(l)
  {
    assert [l][1..] == [];
  }

  /** What is well nested may stand between "<b>" and "</a>" if the names are the same but for case,
      and the tree reads as a section. */
  lemma SectionNested(b: string, args: string, body: seq<Line>, a: string, o: Line, c: Line)
    requires b != "" && b[0] != '/' && b[|b| - 1] != '>' && SameName(a, b) && WellNested(body)
    requires o == Words("<" + b + ">", args) && c == Words("</" + a + ">", "")
    ensures WellNested([o] + body + [c])
    ensures Events([o] + body + [c]) == [Open("<" + b, args)] + Events(body) + [Close(Lower(b))]
  {
    SectionLine(b, args);
    EndLine(a, "");
    LowerIff(a, b);
    IsSectionDoc(b, args, body, a, o, c);
    EventsConcat([o] + body, [c]);
    EventsConcat([o], body);
    EventsOne(o);
    EventsOne(c);
  }

  lemma IsSectionDoc(b: string, args: string, body: seq<Line>, a: string, o: Line, c: Line)
    requires b != "" && b[0] != '/' && b[|b| - 1] != '>' && SameName(a, b) && WellNested(body)
    requires o == Words("<" + b + ">", args) && c == Words("</" + a + ">", "")
    ensures WellNested([o] + body + [c])
  {
    SectionLine(b, args);
    ClosesIff(a, b);
    StoredName(b);
    var d :| ValidDoc(d) && Flat(d) == body;
    var section := Section(o, d, c, Empty);
    FlatSection(o, d, c);
    assert ValidDoc(section) && Flat(section) == [o] + body + [c];
  }

  lemma FlatSection(o: Line, d: Doc, c: Line)
    ensures Flat(Section(o, d, c, Empty)) == [o] + Flat(d) + [c]
  {
    assert [o] + Flat(d) + [c] + [] == [o] + Flat(d) + [c];
  }

  lemma StoredName(name: string)
    requires name != "" && name[0] != '/'
    ensures Stored("<" + name + ">") == "<" + name
  {
    var cmd := "<" + name + ">";
    assert cmd[..|cmd| - 1] == "<" + name && cmd[1] == name[0];
  }

  /** A section may be closed in other letters than it was opened in. */
  method BuildOtherCase() returns (ok: bool, c: Config)
    ensures ok && c.Valid() && c.Contents() == [Open("<Limit", ""), Close("limit")]
  {
    c := new Config();
    var lines := [Words("<Limit>", ""), Words("</limit>", "")];
    OtherCase(lines);
    ok := c.Build(lines);
  }

  lemma OtherCase(lines: seq<Line>)
    requires lines == [Words("<Limit>", ""), Words("</limit>", "")]
    ensures WellNested(lines) && Events(lines) == [Open("<Limit", ""), Close("limit")]
  {
    LimitText();
    LowerLimit();
    SectionAlone("Limit", "limit", lines[0], lines[1]);
    assert lines == [lines[0], lines[1]];
  }

  lemma SectionAlone(b: string, a: string, o: Line, c: Line)
    requires b != "" && b[0] != '/' && b[|b| - 1] != '>' && SameName(a, b)
    requires o == Words("<" + b + ">", "") && c == Words("</" + a + ">", "")
    ensures WellNested([o, c]) && Events([o, c]) == [Open("<" + b, ""), Close(Lower(b))]
  {
    NothingNested();
    SectionNested(b, "", [], a, o, c);
    NothingBetween(o, c);
    NothingBetween(Open("<" + b, ""), Close(Lower(b)));
  }

  lemma NothingBetween<T>(o: T, c: T)
    ensures [o] + [] + [c] == [o, c]
  {
  }

  lemma NothingNested()
    ensures WellNested([]) && Events([]) == []
  {
    assert ValidDoc(Empty) && Flat(Empty) == [];
  }

  lemma LimitText()
    ensures "<" + "Limit" + ">" == "<Limit>" && "</" + "limit" + ">" == "</limit>" && "<" + "Limit" == "<Limit"
    ensures SameName("limit", "Limit")
  {
  }

  lemma LowerLimit()
    ensures Lower("Limit") == "limit"
  {
    assert "Limit"[1..] == "imit" && "imit"[1..] == "mit" && "mit"[1..] == "it" && "it"[1..] == "t" && "t"[1..] == "";
    assert Lower("t") == "t" && Lower("it") == "it";
    assert Lower("mit") == "mit";
    assert Lower("imit") == "imit";
  }

  lemma OpenCount(s: seq<Links>, z: Zip)
    requires InZip(z, |s|)
    ensures OpenNames(s, z) == [] <==> z.Top?
  {
  }

  // ----- the tree in memory -----

  /** The pointers of the objects themselves: the siblings f hang together by `next`, each has
      `parent` for its parent, and its children hang from first_child in the same way. */
  ghost predicate LinkedTo(order: seq<Directive>, f: Forest, parent: Directive?, follow: Directive?)
    reads order
  {
    match f
    case Nil => true
    case Snoc(init, id, kids) =>
      && id < |order| && order[id].parent == parent && order[id].next == follow
      && order[id].first_child == At(order, First(kids, -1))
      && LinkedTo(order, kids, order[id], null) && LinkedTo(order, init, parent, order[id])
  }

  function DirectiveEvent(d: Directive): Event {
    if StartsSection(d.directive) then Open(d.directive, d.args) else Plain(d.directive, d.args)
  }

  /** Reading the objects in pre-order with the section ends put back in. */
  ghost function ReadObjects(order: seq<Directive>, f: Forest): seq<Event> {
    match f
    case Nil => []
    case Snoc(init, id, kids) =>
      if id >= |order| then ReadObjects(order, init)
      else (
        ReadObjects(order, init) + [DirectiveEvent(order[id])]
        + (if StartsSection(order[id].directive) then ReadObjects(order, kids) + [CloserOf(order[id].directive)] else []))
  }

  lemma {:induction false} ChainIsLinked(order: seq<Directive>, s: seq<Links>, f: Forest, lo: nat, hi: nat, parent: int, follow: int)
    requires Holds(order, s) && In(f, lo, hi) && hi <= |s| && Chain(s, f, parent, follow)
    ensures LinkedTo(order, f, At(order, parent), At(order, follow))
    ensures ReadObjects(order, f) == Read(s, f)
    decreases f
  {
    if f.Snoc? {
      assert NodeHolds(order, s, f.id);
      ChainIsLinked(order, s, f.init, lo, f.id, parent, f.id);
      ChainIsLinked(order, s, f.kids, f.id + 1, hi, f.id, -1);
    }
  }

  /** A valid tree is one tree of objects, with all pointers in agreement. */
  lemma ValidTree(c: Config)
    requires c.Valid()
    ensures LinkedTo(c.order, c.forest, null, null) && c.conftree == At(c.order, First(c.forest, -1))
    ensures ReadObjects(c.order, c.forest) == c.Contents()
  {
    ChainIsLinked(c.order, c.nodes, c.forest, 0, |c.nodes|, -1, -1);
  }
}
