/**
 * The redirection decision of the fakeroot shim (src/lib.rs): validating the
 * configured fake root and computing the path an intercepted call is
 * redirected to. The process environment and the filesystem's "exists" test
 * are parameters; both are constant during one call.
 */
module FakeRoot {
  import opened Wrappers
  import opened Utf8
  import opened Paths

  /** The process environment: variable name to raw value. */
  type Env = map<string, Bytes>

  /** The paths for which `Path::exists` holds. */
  type FileSystem = set<Bytes>

  /** Name of the variable that holds the fake root directory. */
  const EnvFakeRoot: string := "FAKE_ROOT"

  /** Why `env::var` failed. */
  datatype VarError = NotPresent | NotUnicode(raw: Bytes)

  /** Why the fake root could not be used. */
  datatype RootError = Var(cause: VarError) | NotAbsolute | NotOnDisk
  {
    /** The error's `Display` text. */
    function Message(): (m: string)
      ensures |m| > 0
      ensures (NotAbsolute? || NotOnDisk?) ==> |EnvFakeRoot| < |m| && m[..|EnvFakeRoot|] == EnvFakeRoot
    {
      match this
      case Var(NotPresent) => "environment variable not found"
      case Var(NotUnicode(_)) => "environment variable was not valid unicode"
      case NotAbsolute => EnvFakeRoot + " is not absolute"
      case NotOnDisk => EnvFakeRoot + " does not exist on disk"
    }
  }

  /** Why no redirected path was produced. */
  datatype PathError =
    | BadUtf8
    | RootUnavailable(message: string)
    | NotInFakeRoot

  /** `env::var(key)`: the value when it is set and valid UTF-8. */
  function EnvVar(env: Env, key: string): (r: Result<Bytes, VarError>)
    ensures r.Ok? <==> key in env && ValidUtf8(env[key])
    ensures r.Ok? ==> r.value == env[key]
    ensures r == Err(NotPresent) <==> key !in env
  {
    if key !in env then Err(NotPresent)
    else if !ValidUtf8(env[key]) then Err(NotUnicode(env[key]))
    else Ok(env[key])
  }

  /**
   * `get_fake_root`: the value of FAKE_ROOT, provided it is set, absolute and
   * exists; absoluteness is checked before existence.
   */
  function GetFakeRoot(env: Env, fs: FileSystem): (r: Result<Bytes, RootError>)
    ensures r.Ok? ==> IsAbsolute(r.value) && r.value in fs && ValidUtf8(r.value)
  {
    match EnvVar(env, EnvFakeRoot)
    case Err(e) => Err(Var(e))
    case Ok(path) =>
      if IsAbsolute(path) then
        if path in fs then Ok(path) else Err(NotOnDisk)
      else Err(NotAbsolute)
  }

  /**
   * What `get_fake_path` demands of its input so that `&path_str[1..]` does
   * not panic: whenever decoding and root resolution succeed, the input is
   * non-empty and byte 1 is a char boundary.
   */
  predicate SliceIsSafe(input: Bytes, env: Env, fs: FileSystem) {
    ValidUtf8(input) && GetFakeRoot(env, fs).Ok? ==> CanSliceFromOne(input)
  }

  /**
   * `get_fake_path`: decode the input, resolve the root afresh (there is no
   * cache), drop the input's first byte, join the rest onto the root and
   * succeed only if the result exists.
   */
  function GetFakePath(input: Bytes, env: Env, fs: FileSystem): (r: Result<Bytes, PathError>)
    requires SliceIsSafe(input, env, fs)
    ensures r.Ok? ==> r.value in fs && IsAbsolute(r.value)
  {
    if !ValidUtf8(input) then Err(BadUtf8)
    else
      match GetFakeRoot(env, fs)
      case Err(e) => Err(RootUnavailable(e.Message()))
      case Ok(root) =>
        var fakePath := Join(root, input[1..]);
        if fakePath in fs then Ok(fakePath) else Err(NotInFakeRoot)
  }

  // ---------------------------------------------------------------------------
  // get_fake_root

  /** An unset FAKE_ROOT is an error. */
  lemma UnsetRootIsError(env: Env, fs: FileSystem)
    requires EnvFakeRoot !in env
    ensures GetFakeRoot(env, fs) == Err(Var(NotPresent))
  {
  }

  /** A FAKE_ROOT that is not absolute is rejected whether or not it exists. */
  lemma RelativeRootIsError(env: Env, fs: FileSystem)
    requires EnvFakeRoot in env && ValidUtf8(env[EnvFakeRoot])
    requires !IsAbsolute(env[EnvFakeRoot])
    ensures GetFakeRoot(env, fs) == Err(NotAbsolute)
    ensures GetFakeRoot(env, fs + {env[EnvFakeRoot]}) == Err(NotAbsolute)
  {
  }

  /** An absolute FAKE_ROOT that does not exist is rejected. */
  lemma MissingRootIsError(env: Env, fs: FileSystem)
    requires EnvFakeRoot in env && ValidUtf8(env[EnvFakeRoot])
    requires IsAbsolute(env[EnvFakeRoot]) && env[EnvFakeRoot] !in fs
    ensures GetFakeRoot(env, fs) == Err(NotOnDisk)
  {
  }

  /** The root resolves exactly when FAKE_ROOT is set, absolute and on disk, and then it is the value as given. */
  lemma RootOkIff(env: Env, fs: FileSystem)
    ensures GetFakeRoot(env, fs).Ok? <==>
      EnvFakeRoot in env && ValidUtf8(env[EnvFakeRoot]) &&
      IsAbsolute(env[EnvFakeRoot]) && env[EnvFakeRoot] in fs
    ensures GetFakeRoot(env, fs).Ok? ==> GetFakeRoot(env, fs).value == env[EnvFakeRoot]
  {
  }

  /** The filesystem is consulted only about the root itself. */
  lemma RootConsultsOnlyItself(env: Env, fs: FileSystem, fs': FileSystem)
    requires EnvFakeRoot in env ==> (env[EnvFakeRoot] in fs <==> env[EnvFakeRoot] in fs')
    ensures GetFakeRoot(env, fs) == GetFakeRoot(env, fs')
  {
  }

  // ---------------------------------------------------------------------------
  // get_fake_path

  /** Input that is not UTF-8 fails before the root is looked up, whatever the environment and filesystem. */
  lemma InvalidInputFailsFirst(input: Bytes, env: Env, fs: FileSystem, env': Env, fs': FileSystem)
    requires !ValidUtf8(input)
    ensures GetFakePath(input, env, fs) == Err(BadUtf8)
    ensures GetFakePath(input, env, fs) == GetFakePath(input, env', fs')
  {
  }

  /**
   * A root failure is reported with the root error's message, and no
   * candidate path is consulted: any filesystem that agrees about the root
   * gives the same answer.
   */
  lemma RootFailurePropagates(input: Bytes, env: Env, fs: FileSystem, fs': FileSystem)
    requires ValidUtf8(input) && GetFakeRoot(env, fs).Err?
    requires EnvFakeRoot in env ==> (env[EnvFakeRoot] in fs <==> env[EnvFakeRoot] in fs')
    ensures GetFakePath(input, env, fs) == Err(RootUnavailable(GetFakeRoot(env, fs).error.Message()))
    ensures GetFakePath(input, env, fs') == GetFakePath(input, env, fs)
  {
    RootConsultsOnlyItself(env, fs, fs');
  }

  /**
   * With a valid input and a resolved root, the result is the root joined
   * with the input minus its first byte, and it is Ok exactly when that
   * candidate exists.
   */
  lemma SuccessIsJoin(input: Bytes, env: Env, fs: FileSystem)
    requires ValidUtf8(input) && GetFakeRoot(env, fs).Ok?
    requires CanSliceFromOne(input)
    ensures var candidate := Join(GetFakeRoot(env, fs).value, input[1..]);
      GetFakePath(input, env, fs) == if candidate in fs then Ok(candidate) else Err(NotInFakeRoot)
  {
  }

  /** A redirection happens only for a valid input under a valid root, onto an existing candidate. */
  lemma OkOnlyForExistingCandidate(input: Bytes, env: Env, fs: FileSystem)
    requires SliceIsSafe(input, env, fs) && GetFakePath(input, env, fs).Ok?
    ensures ValidUtf8(input) && GetFakeRoot(env, fs).Ok? && CanSliceFromOne(input)
    ensures GetFakePath(input, env, fs).value == Join(GetFakeRoot(env, fs).value, input[1..])
  {
  }

  /**
   * The panic guard on `&path_str[1..]` reads, for decoded input, as "the
   * path is non-empty and its first character is a single byte".
   */
  lemma SliceIsSafeIffAsciiHead(input: Bytes, env: Env, fs: FileSystem)
    requires ValidUtf8(input) && GetFakeRoot(env, fs).Ok?
    ensures SliceIsSafe(input, env, fs) <==> |input| > 0 && input[0] < 0x80
  {
    if |input| > 0 {
      SliceFromOneIffAsciiHead(input);
    }
  }

  /**
   * Unless the input's second byte is `/`, the redirected path starts with
   * the root, followed by a separator unless the root already ends in one:
   * stripping that prefix gives back the input minus its first byte. This is a statement about bytes only; a `..`
   * component or a symbolic link in the remainder can still name a file
   * outside the root.
   */
  lemma RedirectStaysUnderRoot(input: Bytes, env: Env, fs: FileSystem)
    requires SliceIsSafe(input, env, fs) && GetFakePath(input, env, fs).Ok?
    requires !IsAbsolute(input[1..])
    ensures RelativeTo(GetFakePath(input, env, fs).value, GetFakeRoot(env, fs).value) == Some(input[1..])
  {
    RelativeToJoin(GetFakeRoot(env, fs).value, input[1..]);
  }

  /**
   * An input whose second byte is `/` (such as `//x`) escapes the root: the
   * join discards it and the candidate is the input minus its first byte.
   */
  lemma DoubleSlashEscapesRoot(input: Bytes, env: Env, fs: FileSystem)
    requires ValidUtf8(input) && GetFakeRoot(env, fs).Ok?
    requires |input| >= 2 && input[0] == Separator && input[1] == Separator
    ensures SliceIsSafe(input, env, fs)
    ensures GetFakePath(input, env, fs) == if input[1..] in fs then Ok(input[1..]) else Err(NotInFakeRoot)
  {
  }

  /**
   * Nothing checks for a leading `/`: any single-byte first character is
   * dropped just as `/` would be, so a relative input `etc/hosts` is looked
   * up as `tc/hosts` under the root.
   */
  lemma FirstByteIsDropped(c: Byte, rest: Bytes, env: Env, fs: FileSystem)
    requires c < 0x80
    ensures SliceIsSafe([c] + rest, env, fs) && SliceIsSafe([Separator] + rest, env, fs)
    ensures GetFakePath([c] + rest, env, fs) == GetFakePath([Separator] + rest, env, fs)
  {
    FirstAsciiByte(c, rest);
    FirstAsciiByte(Separator, rest);
  }

  /** A redirected path is valid UTF-8, like both of its parts. */
  lemma RedirectIsValidUtf8(input: Bytes, env: Env, fs: FileSystem)
    requires SliceIsSafe(input, env, fs) && GetFakePath(input, env, fs).Ok?
    ensures ValidUtf8(GetFakePath(input, env, fs).value)
  {
    var root := GetFakeRoot(env, fs).value;
    SliceFromOneIffAsciiHead(input);
    var rel := input[1..];
    if !IsAbsolute(rel) {
      if |root| > 0 && !EndsWithSeparator(root) {
        AsciiIsValid([Separator]);
        ConcatIsValid(root, [Separator]);
        ConcatIsValid(root + [Separator], rel);
      } else {
        ConcatIsValid(root, rel);
      }
    }
  }

  predicate HasNoNul(s: Bytes) {
    forall i :: 0 <= i < |s| ==> s[i] != 0
  }

  /**
   * `CString::new(..).unwrap()` cannot panic on a redirected path: if neither
   * the C-string input nor the environment's FAKE_ROOT holds a NUL byte,
   * neither does the result.
   */
  lemma RedirectHasNoNul(input: Bytes, env: Env, fs: FileSystem)
    requires SliceIsSafe(input, env, fs) && GetFakePath(input, env, fs).Ok?
    requires HasNoNul(input) && EnvFakeRoot in env && HasNoNul(env[EnvFakeRoot])
    ensures HasNoNul(GetFakePath(input, env, fs).value)
  {
    var root := GetFakeRoot(env, fs).value;
    var rel := input[1..];
    var p := GetFakePath(input, env, fs).value;
    assert HasNoNul(rel);
    if !IsAbsolute(rel) {
      if |root| > 0 && !EndsWithSeparator(root) {
        assert p == root + [Separator] + rel;
      } else {
        assert p == root + rel;
      }
    }
  }

  /**
   * The result depends on the environment only through the root resolved
   * on this very call.
   */
  lemma ResultFollowsCurrentRoot(input: Bytes, env: Env, env': Env, fs: FileSystem)
    requires SliceIsSafe(input, env, fs)
    requires GetFakeRoot(env', fs) == GetFakeRoot(env, fs)
    ensures SliceIsSafe(input, env', fs)
    ensures GetFakePath(input, env', fs) == GetFakePath(input, env, fs)
  {
  }
}
