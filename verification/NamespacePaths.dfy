/** Module paths kept as one string: splitting, joining, prefixes, and names inside them. */
module NamespacePaths {
  import opened Wrappers

  /** `SEP` */
  const SEP := "::"

  datatype Namespace = Namespace(joinedPath: string)

  /** `joined_path` of every namespace has passed this assertion of `new_raw`. */
  predicate Valid(ns: Namespace) {
    '\\' !in ns.joinedPath
  }

  // ----- Text -----

  predicate SepAt(s: string, i: nat) {
    i + 1 < |s| && s[i] == ':' && s[i + 1] == ':'
  }

  /** The first occurrence of the separator, as `str::split` and `str::contains` look for it. */
  function FindSep(s: string): (at: Option<nat>)
    ensures at.Some? ==> SepAt(s, at.value) && forall j: nat :: j < at.value ==> !SepAt(s, j)
    ensures at.None? ==> forall j: nat :: !SepAt(s, j)
  {
    if |s| < 2 then None
    else if s[..2] == SEP then Some(0)
    else
      match FindSep(s[1..])
      case Some(i) =>
        assert forall j: nat :: 0 < j < i + 1 ==> (SepAt(s, j) <==> SepAt(s[1..], j - 1));
        Some(i + 1)
      case None =>
        assert forall j: nat :: 0 < j ==> (SepAt(s, j) <==> SepAt(s[1..], j - 1));
        None
  }

  /** `str::split("::")` */
  function Split(s: string): (parts: seq<string>)
    ensures parts != []
    decreases |s|
  {
    match FindSep(s)
    case Some(i) => [s[..i]] + Split(s[i + 2..])
    case None => [s]
  }

  /** `path.join("::")` */
  function Join(path: seq<string>): string {
    if path == [] then ""
    else if |path| == 1 then path[0]
    else path[0] + SEP + Join(path[1..])
  }

  // ----- Operations -----

  /** None is the failed assertion. */
  function NewRaw(joinedPath: string): Option<Namespace> {
    if '\\' in joinedPath then None else Some(Namespace(joinedPath))
  }

  function New(path: seq<string>): Option<Namespace> {
    if exists c <- path :: FindSep(c).Some? then None else NewRaw(Join(path))
  }

  function Path(ns: Namespace): seq<string> {
    if ns.joinedPath == "" then [] else Split(ns.joinedPath)
  }

  /** `join` */
  function Child(ns: Namespace, other: string): Option<Namespace> {
    NewRaw(ns.joinedPath + SEP + other)
  }

  predicate IsPrefixOf(a: Namespace, b: Namespace) {
    Path(a) <= Path(b)
  }

  /** None is the `unwrap` of a prefix that is none, or a failed assertion. */
  function StripPrefix(ns: Namespace, prefix: Namespace): Option<Namespace> {
    if Path(prefix) <= Path(ns) then New(Path(ns)[|Path(prefix)|..]) else None
  }

  // ----- Splitting and joining -----

  predicate EndsWithColon(c: string) {
    c != "" && c[|c| - 1] == ':'
  }

  /** No component hides a separator, and none but the last runs into the separator behind it. */
  predicate WellSeparated(path: seq<string>) {
    && (forall c <- path :: FindSep(c).None?)
    && (forall i :: 0 <= i < |path| - 1 ==> !EndsWithColon(path[i]))
  }

  lemma {:induction false} JoinUndoesSplit(s: string)
    ensures Join(Split(s)) == s
    decreases |s|
  {
    match FindSep(s)
    case None =>
    case Some(i) =>
      JoinUndoesSplit(s[i + 2..]);
      assert s[i..i + 2] == SEP;
      assert s == s[..i] + SEP + s[i + 2..];
      assert Split(s)[1..] == Split(s[i + 2..]);
  }

  lemma {:induction false} SplitIsWellSeparated(s: string)
    ensures WellSeparated(Split(s))
    decreases |s|
  {
    match FindSep(s)
    case None =>
    case Some(i) =>
      var first, rest := s[..i], Split(s[i + 2..]);
      SplitIsWellSeparated(s[i + 2..]);
      assert forall j: nat :: SepAt(first, j) ==> SepAt(s, j);
      if EndsWithColon(first) {
        assert SepAt(s, i - 1);
      }
      assert Split(s) == [first] + rest;
      assert forall k :: 0 < k < |Split(s)| ==> Split(s)[k] == rest[k - 1];
  }

  /** Where the first separator of a joined path stands. */
  lemma FirstSep(c: string, rest: string)
    requires FindSep(c).None?
    ensures FindSep(c + SEP + rest) == Some(if EndsWithColon(c) then |c| - 1 else |c|)
  {
    var s := c + SEP + rest;
    var at := if EndsWithColon(c) then |c| - 1 else |c|;
    assert s[|c|] == ':' && s[|c| + 1] == ':';
    assert SepAt(s, at);
    assert forall j: nat :: j < at && SepAt(s, j) ==> SepAt(c, j);
  }

  /** A joined path splits back into the same components exactly when they were well separated. */
  lemma {:induction false} SplitUndoesJoinExactlyWhen(path: seq<string>)
    requires path != []
    ensures Split(Join(path)) == path <==> WellSeparated(path)
  {
    var s := Join(path);
    SplitIsWellSeparated(s);
    if |path| > 1 && FindSep(path[0]).None? {
      var rest := path[1..];
      FirstSep(path[0], Join(rest));
      SplitUndoesJoinExactlyWhen(rest);
      if !EndsWithColon(path[0]) {
        assert s[..|path[0]|] == path[0] && s[|path[0]| + 2..] == Join(rest);
        assert Split(s) == [path[0]] + Split(Join(rest));
        assert WellSeparated(path) ==> WellSeparated(rest);
        if WellSeparated(path) {
          assert path == [path[0]] + rest;
        }
      }
    }
  }

  // ----- Namespaces -----

  /** `new` accepts exactly components without separators and backslashes. */
  lemma NewAcceptsExactlyWhen(path: seq<string>)
    ensures New(path).Some? <==> forall c <- path :: FindSep(c).None? && '\\' !in c
  {
    NoBackslash(path);
  }

  /** `path` after `new` gives back the components, except for the two families named here. */
  lemma PathOfNewExactlyWhen(path: seq<string>)
    requires New(path).Some?
    ensures Path(New(path).value) == path
            <==> path != [""] && forall i :: 0 <= i < |path| - 1 ==> !EndsWithColon(path[i])
  {
    if path != [] {
      SplitUndoesJoinExactlyWhen(path);
      JoinedIsEmpty(path);
    }
  }

  lemma JoinedIsEmpty(path: seq<string>)
    ensures Join(path) == "" <==> path == [] || path == [""]
  {
  }

  /** Nonempty components without colons always come back. */
  lemma PlainComponentsComeBack(path: seq<string>)
    requires forall c <- path :: c != "" && ':' !in c && '\\' !in c
    ensures New(path).Some? && Path(New(path).value) == path
  {
    NoBackslash(path);
    forall c | c in path ensures FindSep(c).None? && !EndsWithColon(c) {
      assert forall i :: 0 <= i < |c| ==> c[i] in c;
    }
    forall i | 0 <= i < |path| ensures path[i] != "" && !EndsWithColon(path[i]) {
      assert path[i] in path;
    }
    assert New(path).Some?;
    assert |path| == 1 ==> path[0] != "";
    PathOfNewExactlyWhen(path);
  }

  lemma {:induction false} NoBackslash(path: seq<string>)
    ensures '\\' in Join(path) <==> exists c <- path :: '\\' in c
  {
    if |path| > 1 {
      NoBackslash(path[1..]);
      assert path == [path[0]] + path[1..];
    }
  }

  /** No two namespaces have the same path. */
  lemma PathIsInjective(a: Namespace, b: Namespace)
    requires Path(a) == Path(b)
    ensures a == b
  {
    JoinUndoesSplit(a.joinedPath);
    JoinUndoesSplit(b.joinedPath);
  }

  /** A prefix is what some further components complete. */
  lemma PrefixMeans(a: Namespace, b: Namespace)
    ensures IsPrefixOf(a, b) <==> exists rest :: Path(b) == Path(a) + rest
  {
    if IsPrefixOf(a, b) {
      assert Path(b) == Path(a) + Path(b)[|Path(a)|..];
    }
  }

  lemma PrefixIsAPartialOrder(a: Namespace, b: Namespace, c: Namespace)
    ensures IsPrefixOf(a, a)
    ensures IsPrefixOf(a, b) && IsPrefixOf(b, c) ==> IsPrefixOf(a, c)
    ensures IsPrefixOf(a, b) && IsPrefixOf(b, a) ==> a == b
  {
    if IsPrefixOf(a, b) && IsPrefixOf(b, a) {
      PathIsInjective(a, b);
    }
  }

  lemma BackslashesAreRefused(ns: Namespace, other: string)
    ensures Child(ns, other) == None <==> !Valid(ns) || '\\' in other
  {
    var joined := ns.joinedPath + SEP + other;
    assert forall c :: c in joined <==> c in ns.joinedPath || c in SEP || c in other;
  }

  /** Joining a name on adds exactly that component, except in the cases named here. */
  lemma ChildPathExactlyWhen(ns: Namespace, other: string)
    requires Valid(ns) && '\\' !in other
    ensures Child(ns, other).Some?
    ensures Path(Child(ns, other).value) == Path(ns) + [other]
            <==> ns.joinedPath != "" && FindSep(other).None? && !EndsWithColon(Path(ns)[|Path(ns)| - 1])
  {
    BackslashesAreRefused(ns, other);
    if ns.joinedPath == "" {
      assert Join(["", other]) == SEP + other;
      StartsEmpty(other);
    } else {
      PathJoins(ns);
      AppendExactlyWhen(Path(ns), other);
    }
  }

  lemma StartsEmpty(other: string)
    ensures Split(SEP + other) != [other]
  {
    assert FindSep(SEP + other) == Some(0);
    assert |Split(SEP + other)| > 1;
  }

  lemma AppendExactlyWhen(path: seq<string>, other: string)
    requires path != [] && WellSeparated(path)
    ensures Split(Join(path) + SEP + other) == path + [other]
            <==> FindSep(other).None? && !EndsWithColon(path[|path| - 1])
  {
    var longer := path + [other];
    JoinConcat(path, [other]);
    SplitUndoesJoinExactlyWhen(longer);
    assert longer[|path|] == other && longer[|path| - 1] == path[|path| - 1];
    assert WellSeparated(longer) <==> FindSep(other).None? && !EndsWithColon(path[|path| - 1]);
  }

  lemma {:induction false} JoinConcat(a: seq<string>, b: seq<string>)
    requires a != [] && b != []
    ensures Join(a + b) == Join(a) + SEP + Join(b)
  {
    assert (a + b)[1..] == a[1..] + b;
    if |a| > 1 {
      JoinConcat(a[1..], b);
    }
  }

  lemma SuffixIsWellSeparated(path: seq<string>, k: nat)
    requires k <= |path| && WellSeparated(path)
    ensures WellSeparated(path[k..])
  {
    assert forall c <- path[k..] :: c in path;
  }

  lemma PathJoins(ns: Namespace)
    ensures Join(Path(ns)) == ns.joinedPath && WellSeparated(Path(ns)) && Path(ns) != [""]
  {
    JoinUndoesSplit(ns.joinedPath);
    SplitIsWellSeparated(ns.joinedPath);
  }

  /** What stands behind a proper prefix of a joined path. */
  lemma BehindPrefix(whole: seq<string>, front: seq<string>)
    requires front <= whole && front != whole && front != []
    ensures Join(whole) == Join(front) + SEP + Join(whole[|front|..])
    ensures Join(whole) == Join(front) + SEP <==> whole[|front|..] == [""]
  {
    var rest := whole[|front|..];
    assert front + rest == whole;
    JoinConcat(front, rest);
    JoinedIsEmpty(rest);
    assert |Join(whole)| == |Join(front)| + 2 + |Join(rest)|;
  }

  /** Making a namespace of the rest of a valid path cannot fail. */
  lemma RestIsAccepted(whole: seq<string>, k: nat)
    requires k <= |whole| && WellSeparated(whole) && '\\' !in Join(whole)
    ensures New(whole[k..]).Some?
    ensures Path(New(whole[k..]).value) == whole[k..] <==> whole[k..] != [""]
  {
    SuffixIsWellSeparated(whole, k);
    NoBackslash(whole);
    NoBackslash(whole[k..]);
    PathOfNewExactlyWhen(whole[k..]);
  }

  /** Stripping a prefix succeeds for every prefix and for nothing else. Its path is what the prefix
      leaves, unless that is one empty component. */
  lemma StripPrefixRebuildsExactlyWhen(ns: Namespace, prefix: Namespace)
    requires Valid(ns)
    ensures StripPrefix(ns, prefix).Some? <==> IsPrefixOf(prefix, ns)
    ensures IsPrefixOf(prefix, ns) ==>
              (Path(prefix) + Path(StripPrefix(ns, prefix).value) == Path(ns)
               <==> prefix.joinedPath == "" || ns.joinedPath != prefix.joinedPath + SEP)
  {
    if IsPrefixOf(prefix, ns) {
      PathJoins(ns);
      PathJoins(prefix);
      RestIsAccepted(Path(ns), |Path(prefix)|);
      PartsOf(Path(ns), Path(prefix), Path(StripPrefix(ns, prefix).value));
      if prefix.joinedPath == "" {
        assert Path(ns)[0..] == Path(ns);
      } else if Path(ns) != Path(prefix) {
        BehindPrefix(Path(ns), Path(prefix));
      } else {
        assert |ns.joinedPath| == |prefix.joinedPath|;
        assert Path(ns)[|Path(prefix)|..] == [];
      }
    }
  }

  lemma PartsOf(whole: seq<string>, front: seq<string>, rest: seq<string>)
    requires front <= whole
    ensures front + rest == whole <==> rest == whole[|front|..]
  {
    assert (front + rest)[|front|..] == rest;
  }

  /** The stripped text is the original's, behind the prefix and one separator. */
  lemma StrippedText(ns: Namespace, prefix: Namespace)
    requires Valid(ns) && IsPrefixOf(prefix, ns) && prefix.joinedPath != "" && prefix != ns
    ensures StripPrefix(ns, prefix).Some?
    ensures ns.joinedPath == prefix.joinedPath + SEP + StripPrefix(ns, prefix).value.joinedPath
  {
    PathJoins(ns);
    PathJoins(prefix);
    RestIsAccepted(Path(ns), |Path(prefix)|);
    BehindPrefix(Path(ns), Path(prefix));
  }

  // ----- Names in a namespace -----

  datatype NamespacedName = NamespacedName(ns: Namespace, name: string)

  function Serialize(n: NamespacedName): string {
    n.ns.joinedPath + "/" + n.name
  }

  /** `rfind("/")` */
  function LastSlash(s: string): (at: Option<nat>)
    ensures at.Some? ==> at.value < |s| && s[at.value] == '/' && '/' !in s[at.value + 1..]
    ensures at.None? ==> '/' !in s
  {
    if s == "" then None
    else if s[|s| - 1] == '/' then Some(|s| - 1)
    else
      match LastSlash(s[..|s| - 1])
      case Some(i) =>
        assert s[i + 1..] == s[..|s| - 1][i + 1..] + [s[|s| - 1]];
        Some(i)
      case None =>
        assert s == s[..|s| - 1] + [s[|s| - 1]];
        None
  }

  /** None is a panic: no slash, or a backslash before the last one. */
  function Deserialize(s: string): Option<NamespacedName> {
    match LastSlash(s)
    case None => None
    case Some(i) =>
      match NewRaw(s[..i])
      case None => None
      case Some(ns) => Some(NamespacedName(ns, s[i + 1..]))
  }

  /** The last slash of a serialized name is the one in front of it, unless the name has one. */
  lemma WhereTheLastSlashIs(front: string, name: string)
    ensures LastSlash(front + "/" + name).Some? && LastSlash(front + "/" + name).value >= |front|
    ensures LastSlash(front + "/" + name).value == |front| <==> '/' !in name
  {
    var s, k := front + "/" + name, |front|;
    assert s[k] == '/' && s[k + 1..] == name;
    var at := LastSlash(s).value;
    assert forall i :: at < i < |s| ==> s[i] == s[at + 1..][i - at - 1];
    assert forall i :: k < i < |s| ==> s[i] == name[i - k - 1];
  }

  /** A name comes back exactly when it holds no slash. The namespace may hold any. */
  lemma NameComesBackExactlyWhen(n: NamespacedName)
    requires Valid(n.ns)
    ensures Deserialize(Serialize(n)) == Some(n) <==> '/' !in n.name
  {
    var s, k := Serialize(n), |n.ns.joinedPath|;
    WhereTheLastSlashIs(n.ns.joinedPath, n.name);
    var at := LastSlash(s).value;
    assert s[..k] == n.ns.joinedPath && s[k + 1..] == n.name;
    assert |s[at + 1..]| == |n.name| <==> at == k;
  }

  predicate LastSlashAt(s: string, i: nat) {
    i < |s| && s[i] == '/' && '/' !in s[i + 1..]
  }

  lemma LastSlashIs(s: string, i: nat)
    requires LastSlashAt(s, i)
    ensures LastSlash(s) == Some(i)
  {
    var at := LastSlash(s);
    assert at.Some?;
    assert forall j :: i < j < |s| ==> s[j] == s[i + 1..][j - i - 1];
    assert forall j :: at.value < j < |s| ==> s[j] == s[at.value + 1..][j - at.value - 1];
  }

  /** Text is accepted exactly if it has a slash and no backslash before the last one. */
  lemma AcceptedExactlyWhen(s: string)
    ensures Deserialize(s).Some? <==> exists i: nat :: LastSlashAt(s, i) && '\\' !in s[..i]
  {
    if i: nat :| LastSlashAt(s, i) && '\\' !in s[..i] {
      LastSlashIs(s, i);
    }
    if Deserialize(s).Some? {
      assert LastSlashAt(s, LastSlash(s).value);
    }
  }

  /** Whatever text is accepted is the serialized form of what it is read as. */
  lemma AcceptedTextIsCanonical(s: string)
    requires Deserialize(s).Some?
    ensures Serialize(Deserialize(s).value) == s && '/' !in Deserialize(s).value.name && Valid(Deserialize(s).value.ns)
  {
    var at := LastSlash(s).value;
    assert s == s[..at] + "/" + s[at + 1..];
  }

  // ----- Inputs that do not come back -----

  /** A colon at the end of a component moves into the next one; a lone empty component disappears. */
  lemma PathsThatDoNotComeBack()
    ensures New(["a:", "b"]).Some? && Path(New(["a:", "b"]).value) != ["a:", "b"]
    ensures New([""]).Some? && Path(New([""]).value) != [""]
  {
    var path := ["a:", "b"];
    assert FindSep("a:").None? && FindSep("b").None?;
    assert Join(path) == "a:::b";
    assert EndsWithColon(path[0]);
    PathOfNewExactlyWhen(path);
    PathOfNewExactlyWhen([""]);
  }

  /** A slash in a name moves into the namespace. */
  lemma SlashMovesIntoNamespace()
    ensures Deserialize(Serialize(NamespacedName(Namespace("a"), "b/c"))) == Some(NamespacedName(Namespace("a/b"), "c"))
  {
    var s := Serialize(NamespacedName(Namespace("a"), "b/c"));
    assert s == "a/b/c" && s[..3] == "a/b" && s[4..] == "c" && s[3] == '/';
    assert LastSlash(s) == Some(3);
  }
}
