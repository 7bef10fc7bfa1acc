/** Share lookup and stored credentials (src/fmconfig.c). */
module Config {
  import opened ByteStrings
  import opened Md5
  import Numerals

  // ------------------------------------------------------------------------------------------------------
  // Shares

  datatype Share = Share(urlpath: Bytes, syspath: Bytes)

  /** The share's path is a prefix of the URL path made of whole components. */
  predicate Covers(share: Share, urlPath: Bytes) {
    var n := |share.urlpath|;
    share.urlpath <= urlPath && (n == |urlPath| || urlPath[n] == '/')
  }

  function Rest(share: Share, urlPath: Bytes): Bytes
    requires Covers(share, urlPath)
  {
    urlPath[|share.urlpath|..]
  }

  function SysPath(share: Share, urlPath: Bytes): Bytes
    requires Covers(share, urlPath)
  {
    if share.syspath + Rest(share, urlPath) == [] then "/" else share.syspath + Rest(share, urlPath)
  }

  function Normal(urlPath: Bytes): Bytes {
    if urlPath == "/" then "" else urlPath
  }

  predicate Longest(shares: seq<Share>, i: nat, urlPath: Bytes) {
    && i < |shares| && Covers(shares[i], urlPath)
    && forall j :: 0 <= j < |shares| && Covers(shares[j], urlPath) ==> |shares[j].urlpath| <= |shares[i].urlpath|
  }

  /** The system path of a longest covering share, and nothing exactly when no share covers the path. */
  method GetSysPathForUrlPath(shares: seq<Share>, urlPath: Bytes) returns (sysPath: Option<Bytes>, ghost best: nat)
    ensures sysPath.None? <==> forall j :: 0 <= j < |shares| ==> !Covers(shares[j], Normal(urlPath))
    ensures sysPath.Some? ==>
      Longest(shares, best, Normal(urlPath)) && sysPath.value == SysPath(shares[best], Normal(urlPath))
  {
    var url := if urlPath == "/" then "" else urlPath;
    var found, bestShLen, cur := -1, -1, 0;
    while cur < |shares|
      invariant 0 <= cur <= |shares| && -1 <= found < cur
      invariant found == -1 ==> bestShLen == -1 && forall j :: 0 <= j < cur ==> !Covers(shares[j], url)
      invariant found >= 0 ==> Covers(shares[found], url) && bestShLen == |shares[found].urlpath|
      invariant forall j :: 0 <= j < cur && Covers(shares[j], url) ==> |shares[j].urlpath| <= bestShLen
    {
      var shLen := |shares[cur].urlpath|;
      if shLen <= |url| && shLen > bestShLen {
        if url[..shLen] == shares[cur].urlpath && (shLen == |url| || url[shLen] == '/') {
          found, bestShLen := cur, shLen;
        }
      }
      cur := cur + 1;
    }
    best := 0;
    sysPath := None;
    if found >= 0 {
      best := found;
      var path := shares[found].syspath;
      if |url| > bestShLen {
        path := path + url[bestShLen..];
      } else if path == [] {
        path := "/";
      }
      sysPath := Some(path);
    }
  }

  /** The rest of the path is appended to the system path of the share; the root of an empty one is "/". */
  lemma RestIsAppended(share: Share, rest: Bytes)
    requires rest != [] ==> rest[0] == '/'
    ensures Covers(share, share.urlpath + rest)
    ensures SysPath(share, share.urlpath + rest) ==
      if share.syspath == [] && rest == [] then "/" else share.syspath + rest
  {
    assert (share.urlpath + rest)[|share.urlpath|..] == rest;
  }

  /** A share does not cover a path that merely begins with the same letters. */
  lemma NotCovered(share: Share, rest: Bytes)
    requires rest != [] && rest[0] != '/'
    ensures !Covers(share, share.urlpath + rest)
  {
  }

  /** "/" is the path of no components. */
  lemma RootIsEmpty(path: Bytes)
    ensures Normal("/") == "" && (path != "/" ==> Normal(path) == path)
  {
  }

  function Components(path: Bytes): seq<Bytes>
    decreases |path|
  {
    var i := Index(path, '/');
    if i == |path| then [path] else [path[..i]] + Components(path[i + 1..])
  }

  predicate TextAt(path: Bytes, i: nat, text: Bytes) {
    i + |text| <= |path| && path[i..i + |text|] == text
  }

  /** A component ".." follows the slash at i. */
  predicate DotDotAt(path: Bytes, i: nat) {
    TextAt(path, i, "/..") && (i + 3 == |path| || path[i + 3] == '/')
  }

  /** The test in doProcessRequest: no "/../" inside and no "/.." at the end. */
  predicate PassesDotDotTest(path: Bytes) {
    !(|path| >= 3 && ((exists i: nat :: i < |path| && TextAt(path, i, "/../")) || path[|path| - 3..] == "/.."))
  }

  lemma DotDotIsFound(path: Bytes, i: nat)
    requires DotDotAt(path, i)
    ensures !PassesDotDotTest(path)
  {
    if i + 3 < |path| {
      assert path[i..i + 4] == path[i..i + 3] + [path[i + 3]];
      assert TextAt(path, i, "/../");
    } else {
      assert path[|path| - 3..] == path[i..i + 3];
    }
  }

  /** The test looks at the components behind the first slash, and finds exactly those named "..". */
  lemma DotDotTestIff(path: Bytes)
    ensures PassesDotDotTest(path) <==> ".." !in Components(path)[1..]
  {
    hide DotDotAt, PassesDotDotTest;
    var n := Index(path, '/');
    TestFindsDotDot(path);
    NextSlash(path, 0, n);
    if n < |path| {
      DotDotInComponents(path, n + 1);
      assert Components(path)[1..] == Components(path[n + 1..]);
    } else {
      assert Components(path)[1..] == [];
      NothingBehind(path);
    }
  }

  lemma TestFindsDotDot(path: Bytes)
    ensures PassesDotDotTest(path) <==> !DotDotFrom(path, 0)
  {
    if !PassesDotDotTest(path) {
      if i: nat :| i < |path| && TextAt(path, i, "/../") {
        assert path[i..i + 4][..3] == path[i..i + 3] && path[i + 3] == path[i..i + 4][3];
        assert DotDotAt(path, i);
      } else {
        assert DotDotAt(path, |path| - 3);
      }
    }
    forall i: nat | DotDotAt(path, i) ensures !PassesDotDotTest(path) {
      DotDotIsFound(path, i);
    }
  }

  /** Some component behind this place is "..". */
  ghost predicate DotDotFrom(path: Bytes, start: nat) {
    exists i: nat :: start <= i && DotDotAt(path, i)
  }

  lemma StartsWithSlash(path: Bytes, i: nat)
    requires DotDotAt(path, i)
    ensures path[i] == '/'
  {
    assert path[i] == path[i..i + 3][0];
  }

  /** The next place to look at is the next slash. */
  lemma NextSlash(path: Bytes, start: nat, next: nat)
    requires start <= next <= |path| && forall j :: start <= j < next ==> path[j] != '/'
    ensures DotDotFrom(path, start) <==> DotDotFrom(path, next)
  {
    forall i: nat | start <= i && DotDotAt(path, i) ensures next <= i {
      StartsWithSlash(path, i);
    }
  }

  /** A component ".." of the text from start on follows a slash. */
  lemma {:induction false} DotDotInComponents(path: Bytes, start: nat)
    requires 0 < start <= |path| && path[start - 1] == '/'
    ensures ".." in Components(path[start..]) <==> DotDotFrom(path, start - 1)
    decreases |path| - start
  {
    hide DotDotAt;
    var s := path[start..];
    var k := Index(s, '/');
    FirstIsDotDot(path, start, k);
    assert forall j :: 0 <= j < k ==> path[start + j] == s[j];
    NextSlash(path, start, start + k);
    if k < |s| {
      assert path[start + k] == s[k];
      DotDotInComponents(path, start + k + 1);
      assert s[k + 1..] == path[start + k + 1..];
      assert Components(s) == [s[..k]] + Components(s[k + 1..]);
    } else {
      assert s[..k] == s;
      NothingBehind(path);
    }
  }

  lemma NothingBehind(path: Bytes)
    ensures !DotDotFrom(path, |path|)
  {
  }

  lemma FirstIsDotDot(path: Bytes, start: nat, k: nat)
    requires 0 < start <= |path| && path[start - 1] == '/' && k == Index(path[start..], '/')
    ensures path[start..][..k] == ".." <==> DotDotAt(path, start - 1)
  {
    var s := path[start..];
    if DotDotAt(path, start - 1) {
      assert path[start - 1..start + 2] == "/..";
      assert s[..2] == path[start - 1..start + 2][1..] == "..";
      assert s[0] == s[..2][0] && s[1] == s[..2][1];
      assert |s| > 2 ==> s[2] == path[start + 2];
    }
  }

  /** Text that follows a slash of a path without a dot-dot component has no such component either. */
  lemma {:induction false} ComponentsClean(path: Bytes, start: nat)
    requires 0 < start <= |path| && path[start - 1] == '/'
    requires forall i :: 0 <= i ==> !DotDotAt(path, i)
    ensures ".." !in Components(path[start..])
    decreases |path| - start
  {
    var s := path[start..];
    var i := Index(s, '/');
    if i < |s| {
      ComponentsClean(path, start + i + 1);
      assert s[i + 1..] == path[start + i + 1..];
    }
    FirstComponentClean(path, start, i);
  }

  lemma FirstComponentClean(path: Bytes, start: nat, i: nat)
    requires 0 < start <= |path| && path[start - 1] == '/' && i == Index(path[start..], '/')
    requires !DotDotAt(path, start - 1)
    ensures path[start..][..i] != ".."
  {
    if i == 2 {
      assert path[start - 1..start + 2] == "/" + path[start..][..2];
      assert i < |path[start..]| ==> path[start..][2] == path[start + 2];
    }
  }

  /** For URLs that pass the test, what is appended to the share's system path names no parent directory. */
  lemma NoDotDotInRest(share: Share, urlPath: Bytes)
    requires PassesDotDotTest(urlPath) && Covers(share, Normal(urlPath))
    ensures ".." !in Components(Rest(share, Normal(urlPath)))
  {
    var url := Normal(urlPath);
    var rest, n := Rest(share, url), |share.urlpath|;
    if rest != [] {
      forall i: nat | DotDotAt(url, i) ensures false {
        DotDotIsFound(url, i);
      }
      ComponentsClean(url, n + 1);
      assert rest[0] == '/' && rest[1..] == url[n + 1..];
      assert Index(rest, '/') == 0 && rest[..0] == [];
    }
  }

  // ------------------------------------------------------------------------------------------------------
  // Credentials

  const FM_REALM := "File Manager"

  /** MD5 of user ":" realm ":" password. */
  function A1(user: Bytes, password: Bytes): Bytes {
    ProgramMd5(user + ":" + FM_REALM + ":" + password)
  }

  /** The credential is for this user: "user:password", or the user followed by 32 characters without a colon. */
  predicate IsFor(cred: Bytes, user: Bytes) {
    user <= cred &&
    var rest := cred[|user|..];
    (rest != [] && rest[0] == ':') || (|rest| == 32 && ':' !in rest)
  }

  function StoredA1(cred: Bytes, user: Bytes): Bytes
    requires IsFor(cred, user)
  {
    var rest := cred[|user|..];
    if rest[0] == ':' then A1(user, rest[1..]) else rest
  }

  /** The first credential for the user decides. */
  function Credential(creds: seq<Bytes>, user: Bytes): Option<Bytes> {
    if creds == [] then None
    else if IsFor(creds[0], user) then Some(StoredA1(creds[0], user))
    else Credential(creds[1..], user)
  }

  lemma {:induction false} FirstForDecides(creds: seq<Bytes>, user: Bytes, i: nat)
    requires i <= |creds| && forall j :: 0 <= j < i ==> !IsFor(creds[j], user)
    requires i < |creds| ==> IsFor(creds[i], user)
    ensures Credential(creds, user) == if i < |creds| then Some(StoredA1(creds[i], user)) else None
    decreases i
  {
    if i > 0 {
      FirstForDecides(creds[1..], user, i - 1);
    }
  }

  method GetDigestAuthCredential(creds: seq<Bytes>, userName: Bytes) returns (md5sum: Option<Bytes>)
    ensures md5sum == Credential(creds, userName)
  {
    var i := 0;
    while i < |creds| && !IsFor(creds[i], userName)
      invariant 0 <= i <= |creds| && forall j :: 0 <= j < i ==> !IsFor(creds[j], userName)
    {
      i := i + 1;
    }
    FirstForDecides(creds, userName, i);
    if i == |creds| {
      return None;
    }
    var sum := HashOf(creds[i], userName);
    return Some(sum);
  }

  method HashOf(cred: Bytes, userName: Bytes) returns (md5sum: Bytes)
    requires IsFor(cred, userName)
    ensures md5sum == StoredA1(cred, userName)
  {
    var rest := cred[|userName|..];
    if rest[0] == ':' {
      assert cred[..|userName| + 1] == userName + ":";
      assert rest == ":" + rest[1..];
      Assoc(userName + ":" + FM_REALM, ":", rest[1..]);
      md5sum := Md5Calculate(cred[..|userName| + 1] + FM_REALM + rest);
    } else {
      md5sum := rest;
    }
  }

  /** The encoded form, as printed for the configuration file. */
  function Encoded(user: Bytes, password: Bytes): Bytes {
    user + A1(user, password)
  }

  /** Without a colon the terminating NUL takes its place, and the password is missing. */
  function EncodedArgument(userWithPasswd: Bytes): Bytes {
    var n := Index(userWithPasswd, ':');
    if n < |userWithPasswd| then Encoded(userWithPasswd[..n], userWithPasswd[n + 1..])
    else userWithPasswd + ProgramMd5(userWithPasswd + "\0" + FM_REALM)
  }

  method GetCredentialsEncoded(userWithPasswd: Bytes) returns (result: Bytes)
    ensures result == EncodedArgument(userWithPasswd)
  {
    hide ProgramMd5;
    var n := Index(userWithPasswd, ':');
    var text := (userWithPasswd + "\0")[..n + 1] + FM_REALM + userWithPasswd[n..];
    if n < |userWithPasswd| {
      ArgumentWithColon(userWithPasswd, n);
    } else {
      ArgumentWithoutColon(userWithPasswd);
    }
    var sum := Md5Calculate(text);
    result := userWithPasswd[..n] + sum;
  }

  lemma ArgumentWithColon(arg: Bytes, n: nat)
    requires n < |arg| && arg[n] == ':'
    ensures (arg + "\0")[..n + 1] + FM_REALM + arg[n..] == arg[..n] + ":" + FM_REALM + ":" + arg[n + 1..]
  {
    hide FM_REALM;
    assert (arg + "\0")[..n + 1] == arg[..n] + ":";
    assert arg[n..] == ":" + arg[n + 1..];
    Assoc(arg[..n] + ":" + FM_REALM, ":", arg[n + 1..]);
  }

  lemma ArgumentWithoutColon(arg: Bytes)
    ensures (arg + "\0")[..|arg| + 1] + FM_REALM + arg[|arg|..] == arg + "\0" + FM_REALM && arg[..|arg|] == arg
  {
    hide FM_REALM;
    assert (arg + "\0")[..|arg| + 1] == arg + "\0" && arg[|arg|..] == [];
    EmptyConcat(arg + "\0" + FM_REALM);
  }

  /** An encoded argument with a colon gives access to its user with its password, as the plain argument does. */
  lemma EncodedGivesAccess(user: Bytes, password: Bytes)
    requires ':' !in user
    ensures EncodedArgument(user + ":" + password) == Stored(Account(user, password, true))
    ensures user + ":" + password == Stored(Account(user, password, false))
  {
    var arg := user + ":" + password;
    assert forall j :: 0 <= j < |user| ==> arg[j] == user[j];
    assert arg[|user|] == ':' && Index(arg, ':') == |user|;
    assert arg[..|user|] == user && arg[|user| + 1..] == password;
  }

  // A credential as configured: plain, or in the encoded form.
  datatype Account = Account(user: Bytes, password: Bytes, encoded: bool)

  function Stored(a: Account): Bytes {
    if a.encoded then Encoded(a.user, a.password) else a.user + ":" + a.password
  }

  lemma A1HasNoColon(user: Bytes, password: Bytes)
    ensures |A1(user, password)| == 32 && ':' !in A1(user, password)
  {
    var text := user + ":" + FM_REALM + ":" + password;
    DigestDigits(text);
    forall i | 0 <= i < 32 ensures ProgramMd5(text)[i] != ':' {
      assert Numerals.DigitVal(':', 16) == -1;
    }
  }

  lemma NoColonConcat(a: Bytes, b: Bytes)
    requires ':' !in a && ':' !in b
    ensures ':' !in a + b
  {
  }

  lemma EqualPrefixes(s: Bytes, a: Bytes, b: Bytes)
    requires a <= s && b <= s && |a| == |b|
    ensures a == b
  {
  }

  /** A plain credential is for the text before its first colon, and for no other colon-free name. */
  lemma PlainIsFor(owner: Bytes, password: Bytes, user: Bytes)
    requires ':' !in owner && ':' !in user
    ensures IsFor(owner + ":" + password, user) <==> user == owner
  {
    var cred := owner + ":" + password;
    assert cred[|owner|] == ':' && owner <= cred;
    assert cred[|owner|..] == ":" + password;
    if IsFor(cred, user) {
      var rest := cred[|user|..];
      assert cred == user + rest;
      assert ':' in cred;
      if ':' !in rest {
        NoColonConcat(user, rest);
      } else {
        FirstColon(cred, owner, user);
        EqualPrefixes(cred, owner, user);
      }
    }
  }

  lemma FirstColon(cred: Bytes, owner: Bytes, user: Bytes)
    requires ':' !in owner && ':' !in user && owner <= cred && user <= cred
    requires |owner| < |cred| && cred[|owner|] == ':' && |user| < |cred| && cred[|user|] == ':'
    ensures |owner| == |user|
  {
    assert forall j :: 0 <= j < |owner| ==> cred[j] == owner[j];
    assert forall j :: 0 <= j < |user| ==> cred[j] == user[j];
  }

  /** A 32-character hash after the name: for that name only. */
  lemma EncodedIsFor(owner: Bytes, hash: Bytes, user: Bytes)
    requires ':' !in owner && ':' !in user && |hash| == 32 && ':' !in hash
    ensures IsFor(owner + hash, user) <==> user == owner
  {
    var cred := owner + hash;
    NoColonConcat(owner, hash);
    assert owner <= cred && cred[|owner|..] == hash;
    if IsFor(cred, user) {
      var rest := cred[|user|..];
      assert rest != [] ==> rest[0] in cred;
      EqualPrefixes(cred, owner, user);
    }
  }

  /** Both forms are for exactly the one user, and give the same A1 hash. */
  lemma BothFormsAgree(a: Account, user: Bytes)
    requires ':' !in a.user && ':' !in user
    ensures IsFor(Stored(a), user) <==> user == a.user
    ensures user == a.user ==> StoredA1(Stored(a), user) == A1(a.user, a.password)
  {
    if a.encoded {
      var hash := A1(a.user, a.password);
      A1HasNoColon(a.user, a.password);
      EncodedIsFor(a.user, hash, user);
      assert (a.user + hash)[|a.user|..] == hash;
    } else {
      PlainIsFor(a.user, a.password, user);
      assert (a.user + ":" + a.password)[|a.user|..] == ":" + a.password;
      assert (":" + a.password)[1..] == a.password;
    }
  }

  function StoredAll(accounts: seq<Account>): seq<Bytes> {
    seq(|accounts|, i requires 0 <= i < |accounts| => Stored(accounts[i]))
  }

  /** With one account per user name, looking a user up finds that user's A1, however it is stored. */
  lemma {:induction false} CredentialOfAccount(accounts: seq<Account>, user: Bytes, i: nat)
    requires ':' !in user && forall k :: 0 <= k < |accounts| ==> ':' !in accounts[k].user
    requires i <= |accounts| && (forall k :: 0 <= k < i ==> accounts[k].user != user)
    requires i < |accounts| ==> accounts[i].user == user
    ensures Credential(StoredAll(accounts), user)
         == if i < |accounts| then Some(A1(user, accounts[i].password)) else None
    decreases i
  {
    if accounts != [] {
      var creds := StoredAll(accounts);
      BothFormsAgree(accounts[0], user);
      assert creds[0] == Stored(accounts[0]);
      assert creds[1..] == StoredAll(accounts[1..]);
      if i > 0 {
        CredentialOfAccount(accounts[1..], user, i - 1);
      } else {
        FirstForDecides(creds, user, 0);
      }
    }
  }
}
