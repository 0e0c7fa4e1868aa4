/** The paths of the CalDAV and CardDAV handlers, backend/internal/dav/paths.go. */
module DavPaths {
  import opened Options
  import opened Strings

  function TrimLeft(s: string): string {
    if s != "" && s[0] == '/' then TrimLeft(s[1..]) else s
  }

  function TrimRight(s: string): string {
    if s != "" && s[|s| - 1] == '/' then TrimRight(s[..|s| - 1]) else s
  }

  /** strings.Trim(s, "/") */
  function Trim(s: string): string {
    TrimRight(TrimLeft(s))
  }

  function TrimSuffix(s: string, suffix: string): string {
    if |suffix| <= |s| && s[|s| - |suffix|..] == suffix then s[..|s| - |suffix|] else s
  }

  /** path.Ext: from the last dot of the last segment. */
  function Ext(s: string): string {
    var dot := LastIndexOf(s, '.');
    if dot > LastIndexOf(s, '/') then s[dot..] else ""
  }

  datatype Ref = Ref(collection: string, uid: string)

  datatype PathHelper = PathHelper(prefix: string) {

    function UserHome(user: string): string {
      prefix + "/" + user + "/"
    }

    function CollPath(user: string, id: string): string {
      UserHome(user) + id + "/"
    }

    function ObjectPath(user: string, id: string, uid: string, ext: string): string {
      CollPath(user, id) + uid + ext
    }

    function RelParts(user: string, path: string): seq<string> {
      var below := Trim(TrimPrefix(path, prefix));
      var s := Trim(TrimPrefix(below, user));
      if s == "" then [] else Split(s, '/')
    }

    function CollID(user: string, path: string): Option<string> {
      var parts := RelParts(user, path);
      if parts == [] then None else Some(parts[0])
    }

    function ObjectRef(user: string, path: string): Option<Ref> {
      var parts := RelParts(user, path);
      if |parts| < 2 then None
      else
        var last := parts[|parts| - 1];
        Some(Ref(parts[0], TrimSuffix(last, Ext(last))))
    }
  }

  /** A non-empty path segment, as the server's ids are. */
  predicate Segment(s: string) {
    s != "" && '/' !in s
  }

  /** A file extension such as .ics or .vcf. */
  predicate Extension(ext: string) {
    ext != "" && ext[0] == '.' && '/' !in ext && '.' !in ext[1..]
  }

  /** A user whose name survives the first trimming. */
  predicate Rooted(user: string) {
    user == "" || user[0] != '/'
  }

  /** Paths of this user lead back to the collection: always, unless the user begins with a slash and something
      other than the collection's id follows the slashes. */
  predicate Recoverable(user: string, id: string) {
    Rooted(user) || TrimLeft(user) == "" || Split(TrimLeft(user), '/')[0] == id
  }

  lemma {:induction false} TrimLeftKeeps(s: string, t: string)
    requires TrimLeft(s) != "" || t == "" || t[0] != '/'
    ensures TrimLeft(s + t) == TrimLeft(s) + t
    ensures TrimLeft(s) != "" ==> TrimLeft(s)[0] != '/'
  {
    if s == "" {
      assert s + t == t;
    } else if s[0] == '/' {
      assert (s + t)[1..] == s[1..] + t;
      TrimLeftKeeps(s[1..], t);
    }
  }

  lemma {:induction false} TrimLeftSlash(s: string)
    ensures TrimLeft(s + "/") == if TrimLeft(s) == "" then "" else TrimLeft(s) + "/"
  {
    if s != "" && s[0] == '/' {
      assert (s + "/")[1..] == s[1..] + "/";
      TrimLeftSlash(s[1..]);
    } else if s != "" {
      TrimLeftKeeps(s, "/");
    }
  }

  /** What follows the user in a path: an id, and perhaps a slash and a file name. */
  predicate Tail(rest: string) {
    rest != "" && rest[0] != '/' && rest[|rest| - 1] != '/'
  }

  lemma TrimRightOnce(kept: string, end: string)
    requires kept != "" && kept[|kept| - 1] != '/' && (end == "" || end == "/")
    ensures TrimRight(kept + end) == kept
  {
    assert (kept + "/")[..|kept|] == kept && kept + "" == kept;
  }

  lemma TrimKeepsTail(s: string, rest: string, end: string)
    requires Tail(rest) && (end == "" || end == "/")
    ensures Trim(s + rest + end) == TrimLeft(s) + rest
  {
    hide TrimLeft, TrimRight;
    var t := rest + end;
    TrimLeftKeeps(s, t);
    assert s + rest + end == s + t;
    var kept := TrimLeft(s) + rest;
    assert TrimLeft(s) + t == kept + end;
    TrimRightOnce(kept, end);
  }

  /** What is left of a path once the mount prefix and the outer slashes are gone. */
  lemma BelowPrefix(user: string, rest: string, end: string)
    requires Tail(rest) && (end == "" || end == "/")
    ensures Trim("/" + user + "/" + rest + end)
         == if TrimLeft(user) == "" then rest else TrimLeft(user) + "/" + rest
  {
    var s := "/" + user + "/";
    TrimKeepsTail(s, rest, end);
    assert s[1..] == user + "/";
    TrimLeftSlash(user);
  }

  lemma RootedKept(user: string)
    requires Rooted(user)
    ensures TrimLeft(user) == user
  {
  }

  /** The user is cut off when it begins what is left. */
  lemma UserIsCut(user: string, rest: string)
    requires Tail(rest) && Rooted(user)
    ensures Trim(TrimPrefix(if user == "" then rest else user + "/" + rest, user)) == rest
  {
    assert "" + rest + "" == rest && "/" + rest + "" == "/" + rest;
    if user == "" {
      TrimKeepsTail("", rest, "");
    } else {
      assert user + "/" + rest == user + ("/" + rest);
      TrimKeepsTail("/", rest, "");
      assert TrimLeft("/") == TrimLeft("/"[1..]) == "";
    }
  }

  /** It is not cut off when it begins with slashes, which the first trimming removed. */
  lemma UserIsNotCut(user: string, w: string, rest: string)
    requires Tail(rest) && !Rooted(user) && w == TrimLeft(user)
    ensures var below := if w == "" then rest else w + "/" + rest;
            Trim(TrimPrefix(below, user)) == below
  {
    TrimLeftKeeps(user, "");
    if w == "" {
      TrimKeepsTail("", rest, "");
      assert "" + rest + "" == rest;
    } else {
      TrimKeepsTail(w + "/", rest, "");
      TrimLeftKeeps(w, "/");
      assert (w + "/") + rest + "" == w + "/" + rest;
    }
  }

  /** The segments of a path below any user at all. */
  lemma Parts(p: PathHelper, user: string, rest: string, end: string)
    requires Tail(rest) && (end == "" || end == "/")
    ensures p.RelParts(user, p.UserHome(user) + rest + end)
         == if Rooted(user) || TrimLeft(user) == "" then Split(rest, '/')
            else Split(TrimLeft(user), '/') + Split(rest, '/')
  {
    hide Trim, TrimLeft, Split;
    var w := TrimLeft(user);
    var path := p.UserHome(user) + rest + end;
    var local := "/" + user + "/" + rest + end;
    assert path == p.prefix + local;
    BelowPrefix(user, rest, end);
    assert TrimPrefix(path, p.prefix) == local;
    if Rooted(user) {
      RootedKept(user);
      UserIsCut(user, rest);
    } else {
      UserIsNotCut(user, w, rest);
      SplitApart(w, rest, '/');
      assert w + ['/'] + rest == w + "/" + rest;
    }
  }

  lemma FileName(uid: string, ext: string)
    requires '/' !in uid && Extension(ext)
    ensures TrimSuffix(uid + ext, Ext(uid + ext)) == uid
  {
    var file := uid + ext;
    forall j | |uid| < j < |file| ensures file[j] != '.' {
      assert file[j] == ext[1..][j - |uid| - 1];
    }
    LastIndexAt(file, |uid|, '.');
    LastIndexAt(file, -1, '/');
    assert file[|uid|..] == ext;
    assert file[..|uid|] == uid;
  }

  /** A collection's path gives back its id exactly for the users named by Recoverable. */
  lemma CollectionRoundTrip(p: PathHelper, user: string, id: string)
    requires Segment(id)
    ensures p.CollID(user, p.CollPath(user, id)) == Some(id) <==> Recoverable(user, id)
  {
    Parts(p, user, id, "/");
    SplitPart(id, "", '/');
  }

  lemma ObjectParts(p: PathHelper, user: string, id: string, uid: string, ext: string)
    requires Segment(id) && '/' !in uid && Extension(ext)
    ensures p.RelParts(user, p.ObjectPath(user, id, uid, ext))
         == (if Rooted(user) || TrimLeft(user) == "" then [] else Split(TrimLeft(user), '/')) + [id, uid + ext]
  {
    hide Trim, TrimLeft, Split, PathHelper.RelParts;
    var file := uid + ext;
    var rest := id + ['/'] + file;
    assert file[|file| - 1] == ext[|ext| - 1];
    assert p.ObjectPath(user, id, uid, ext) == p.UserHome(user) + rest + "";
    Parts(p, user, rest, "");
    SplitPart(id, file, '/');
    SplitPart(file, "", '/');
    assert Split(rest, '/') == [id, file];
  }

  /** An object's path gives back collection and uid for the same users, dots in the uid or not. */
  lemma ObjectRoundTrip(p: PathHelper, user: string, id: string, uid: string, ext: string)
    requires Segment(id) && '/' !in uid && Extension(ext)
    ensures p.ObjectRef(user, p.ObjectPath(user, id, uid, ext)) == Some(Ref(id, uid)) <==> Recoverable(user, id)
  {
    hide TrimLeft, Split, PathHelper.RelParts, PathHelper.ObjectPath, TrimSuffix, Ext;
    ObjectParts(p, user, id, uid, ext);
    FileName(uid, ext);
  }

  /** Two objects of one user never share a path. */
  lemma PathsAreDistinct(p: PathHelper, user: string, a: Ref, b: Ref, ext: string)
    requires Rooted(user) && Extension(ext)
    requires Segment(a.collection) && '/' !in a.uid && Segment(b.collection) && '/' !in b.uid
    requires p.ObjectPath(user, a.collection, a.uid, ext) == p.ObjectPath(user, b.collection, b.uid, ext)
    ensures a == b
  {
    ObjectRoundTrip(p, user, a.collection, a.uid, ext);
    ObjectRoundTrip(p, user, b.collection, b.uid, ext);
  }

  /** The mount prefix may be missing from a path that does not itself begin with it. */
  lemma PrefixMayBeMissing(p: PathHelper, user: string, path: string)
    requires !(p.prefix <= path)
    ensures p.CollID(user, path) == p.CollID(user, p.prefix + path)
    ensures p.ObjectRef(user, path) == p.ObjectRef(user, p.prefix + path)
  {
    assert TrimPrefix(p.prefix + path, p.prefix) == path;
  }

  lemma HomeBelowPrefix(user: string)
    requires Rooted(user) && (user == "" || user[|user| - 1] != '/')
    ensures Trim("/" + user + "/") == user
  {
    var home := "/" + user + "/";
    assert home[1..] == user + "/";
    TrimLeftSlash(user);
    if user != "" {
      assert TrimLeft(home) == user + "/" && (user + "/")[..|user|] == user;
      assert TrimRight(user) == user;
    }
  }

  /** A home path names no collection and a collection's path names no object: both are errors. */
  lemma ShorterPathsAreErrors(p: PathHelper, user: string, id: string)
    requires Rooted(user) && (user == "" || user[|user| - 1] != '/') && Segment(id)
    ensures p.CollID(user, p.UserHome(user)) == None
    ensures p.ObjectRef(user, p.CollPath(user, id)) == None
  {
    Parts(p, user, id, "/");
    SplitPart(id, "", '/');
    HomeBelowPrefix(user);
    assert TrimPrefix(p.UserHome(user), p.prefix) == "/" + user + "/";
    assert TrimPrefix(user, user) == "";
  }

  // ---------------------------------------------------------------------------------------------
  // Paths without the mount prefix
  // ---------------------------------------------------------------------------------------------

  /** A mount of two segments begins the path of a user with one exactly if the user is named like the first and the
      rest begins like the second. */
  lemma MountBegins(top: string, leaf: string, user: string, rest: string)
    requires Segment(top) && Segment(user)
    ensures "/" + top + "/" + leaf <= "/" + user + "/" + rest <==> user == top && leaf <= rest
  {
    var mount, path := "/" + top + "/" + leaf, "/" + user + "/" + rest;
    assert mount[1 + |top|] == '/' && path[1 + |user|] == '/';
    assert forall k :: 0 <= k < |top| ==> mount[1 + k] == top[k] && top[k] in top;
    assert forall k :: 0 <= k < |user| ==> path[1 + k] == user[k] && user[k] in user;
    if mount <= path {
      assert forall k :: 0 <= k < |mount| ==> mount[k] == path[k];
      assert |top| == |user|;
      assert top == mount[1..1 + |top|] == path[1..1 + |top|] == user;
      assert leaf == mount[2 + |top|..] && path[2 + |top|..] == rest;
    }
  }

  /** Two slash-free strings with a slash between those that are not empty. */
  function Pair(a: string, b: string): string {
    if a == "" then b else if b == "" then a else a + "/" + b
  }

  lemma {:induction false} SlashFree(s: string)
    requires '/' !in s
    ensures Trim(s) == s && Trim(s + "/") == s && Trim("/" + s) == s
  {
    if s == "" {
      assert "/"[1..] == "" && s + "/" == "/" && "/" + s == "/";
    } else {
      assert s[0] in s && s[|s| - 1] in s;
      assert "" + s + "" == s && "/" + s + "" == "/" + s && "" + s + "/" == s + "/";
      TrimKeepsTail("", s, "");
      TrimKeepsTail("", s, "/");
      TrimKeepsTail("/", s, "");
      assert TrimLeft("/") == TrimLeft("/"[1..]) == "";
    }
  }

  lemma TrimPair(a: string, b: string)
    requires '/' !in a && '/' !in b
    ensures Trim(a + "/" + b) == Trim(Pair(a, b)) == Pair(a, b)
  {
    SlashFree(a);
    SlashFree(b);
    if a == "" {
      assert a + "/" + b == "/" + b;
    } else if b == "" {
      assert a + "/" + b == a + "/";
    } else {
      assert a[0] in a && b[|b| - 1] in b;
      TrimLeftKeeps(a, "/");
      TrimKeepsTail(a + "/", b, "");
      assert (a + "/") + b + "" == a + "/" + b;
    }
  }

  /** Cutting a slash-free user off a pair leaves a pair whose first half is an end of the old one. */
  lemma CutPair(a: string, b: string, user: string) returns (a': string, b': string)
    requires '/' !in a && '/' !in b && Segment(user)
    ensures '/' !in a' && '/' !in b' && |a'| <= |a| && (b == "" ==> b' == "")
    ensures Trim(TrimPrefix(Pair(a, b), user)) == Pair(a', b')
  {
    a', b' := a, b;
    TrimPair(a, b);
    assert |user| > |a| ==> user[|a|] in user;
    if user <= Pair(a, b) {
      if a == "" {
        b' := b[|user|..];
      } else {
        assert b != "" ==> Pair(a, b)[|a|] == '/';
        assert |user| <= |a|;
        a' := a[|user|..];
        assert b != "" ==> Pair(a, b)[|user|..] == a' + "/" + b;
        assert b == "" ==> Pair(a, b)[|user|..] == a';
      }
      TrimPair(a', b');
    }
  }

  lemma SplitPair(a: string, b: string)
    requires '/' !in a && '/' !in b
    ensures Pair(a, b) != "" ==> Split(Pair(a, b), '/') == if a == "" then [b] else if b == "" then [a] else [a, b]
  {
    SplitPart(a, b, '/');
    SplitPart(b, "", '/');
    assert a + ['/'] + b == a + "/" + b;
  }

  /** What is found when the mount prefix takes the beginning of the collection's id with it: never that id. */
  lemma CutTooFar(p: PathHelper, user: string, path: string, a: string, b: string)
    requires p.prefix <= path && path[|p.prefix|..] == a + "/" + b
    requires '/' !in a && '/' !in b && Segment(user)
    ensures b == "" && p.CollID(user, path).Some? ==> |p.CollID(user, path).value| <= |a|
    ensures p.ObjectRef(user, path).Some? ==> |p.ObjectRef(user, path).value.collection| <= |a|
  {
    TrimPair(a, b);
    var a', b' := CutPair(a, b, user);
    SplitPair(a', b');
  }

  lemma BareCollection(p: PathHelper, top: string, leaf: string, user: string, id: string)
    requires Segment(top) && Segment(leaf) && Segment(user) && Segment(id)
    requires p.prefix == "/" + top + "/" + leaf
    ensures p.CollID(user, "/" + user + "/" + id + "/") == Some(id) <==> !(user == top && leaf <= id)
  {
    hide PathHelper.CollID, PathHelper.ObjectRef;
    var path := "/" + user + "/" + (id + "/");
    assert path == "/" + user + "/" + id + "/" && p.CollPath(user, id) == p.prefix + path;
    MountBegins(top, leaf, user, id + "/");
    LeafBegins(leaf, id, "");
    if p.prefix <= path {
      assert path[|p.prefix|..] == id[|leaf|..] + "/" + "";
      CutTooFar(p, user, path, id[|leaf|..], "");
    } else {
      PrefixMayBeMissing(p, user, path);
      CollectionRoundTrip(p, user, id);
      UserIsRooted(user);
    }
  }

  lemma BareObject(p: PathHelper, top: string, leaf: string, user: string, id: string, uid: string, ext: string)
    requires Segment(top) && Segment(leaf) && Segment(user) && Segment(id) && '/' !in uid && Extension(ext)
    requires p.prefix == "/" + top + "/" + leaf
    ensures p.ObjectRef(user, "/" + user + "/" + id + "/" + uid + ext) == Some(Ref(id, uid))
       <==> !(user == top && leaf <= id)
  {
    hide PathHelper.CollID, PathHelper.ObjectRef, Extension, Recoverable;
    var file := uid + ext;
    assert '/' !in file by {
      FileHasNoSlash(uid, ext);
    }
    var path := "/" + user + "/" + (id + "/" + file);
    assert path == "/" + user + "/" + id + "/" + uid + ext;
    assert p.ObjectPath(user, id, uid, ext) == p.prefix + path;
    MountBegins(top, leaf, user, id + "/" + file);
    LeafBegins(leaf, id, file);
    if p.prefix <= path {
      assert path[|p.prefix|..] == id[|leaf|..] + "/" + file;
      CutTooFar(p, user, path, id[|leaf|..], file);
    } else {
      PrefixMayBeMissing(p, user, path);
      ObjectRoundTrip(p, user, id, uid, ext);
      UserIsRooted(user);
      RootedIsRecoverable(user, id);
    }
  }

  lemma FileHasNoSlash(uid: string, ext: string)
    requires '/' !in uid && Extension(ext)
    ensures '/' !in uid + ext
  {
  }

  lemma UserIsRooted(user: string)
    requires Segment(user)
    ensures Rooted(user)
  {
    assert user[0] in user;
  }

  lemma RootedIsRecoverable(user: string, id: string)
    requires Rooted(user)
    ensures Recoverable(user, id)
  {
  }

  lemma LeafBegins(leaf: string, id: string, rest: string)
    requires Segment(leaf)
    ensures leaf <= id + "/" + rest <==> leaf <= id
  {
    var path := id + "/" + rest;
    assert path[..|id|] == id && path[|id|] == '/';
    assert |leaf| > |id| ==> leaf[|id|] in leaf;
  }

  /** Under the two mounts of the program, the paths of every user with an e-mail address work without the prefix. */
  lemma PrefixIsOptional(user: string, id: string, uid: string, ext: string, mount: string)
    requires mount == "/dav/caldav" || mount == "/dav/carddav"
    requires '@' in user && '/' !in user && Segment(id) && '/' !in uid && Extension(ext)
    ensures PathHelper(mount).CollID(user, "/" + user + "/" + id + "/") == Some(id)
    ensures PathHelper(mount).ObjectRef(user, "/" + user + "/" + id + "/" + uid + ext) == Some(Ref(id, uid))
  {
    hide PathHelper.CollID, PathHelper.ObjectRef, Extension;
    var leaf := if mount == "/dav/caldav" then "caldav" else "carddav";
    assert mount == "/" + "dav" + "/" + leaf && '/' !in leaf;
    assert '@' !in "dav" && user != "dav";
    BareCollection(PathHelper(mount), "dav", leaf, user, id);
    BareObject(PathHelper(mount), "dav", leaf, user, id, uid, ext);
  }

  /** A file name without a dot is the uid itself. */
  lemma NoExtension(p: PathHelper, user: string, id: string, file: string)
    requires Rooted(user) && Segment(id) && Segment(file) && '.' !in file
    ensures p.ObjectRef(user, p.CollPath(user, id) + file) == Some(Ref(id, file))
  {
    hide PathHelper.RelParts, Split;
    var rest := id + ['/'] + file;
    assert id[0] in id && file[|file| - 1] in file;
    assert p.CollPath(user, id) + file == p.UserHome(user) + rest + "";
    Parts(p, user, rest, "");
    SplitPart(id, file, '/');
    SplitPart(file, "", '/');
    assert Split(rest, '/') == [id, file];
    LastIndexAt(file, -1, '.');
    LastIndexAt(file, -1, '/');
    assert file[..|file|] == file;
  }
}
