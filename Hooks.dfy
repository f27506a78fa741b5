/**
 * The `open` and `open64` hooks of src/lib.rs: each asks for a redirected
 * path and hands the call on to the real implementation, with the
 * redirected path when there is one and the original path otherwise. The
 * interposition itself and the real system calls are outside the model;
 * what is modelled is the call that is handed on.
 */
module Hooks {
  import opened Wrappers
  import opened Utf8
  import opened Paths
  import opened FakeRoot

  /** A C `int`. */
  newtype CInt = x: int | -0x8000_0000 <= x < 0x8000_0000

  /** The intercepted symbols. */
  datatype Symbol = Open | Open64

  /** The arguments of an `open`-style call. */
  datatype OpenArgs = OpenArgs(path: Bytes, flags: CInt, mode: CInt)

  /** A call handed on to the real implementation of `symbol`. */
  datatype RealCall = RealCall(symbol: Symbol, args: OpenArgs)

  /**
   * The body shared by both hooks: forward the redirected path on `Ok`,
   * the caller's own arguments on `Err`.
   */
  function Hook(symbol: Symbol, args: OpenArgs, env: Env, fs: FileSystem): (call: RealCall)
    requires SliceIsSafe(args.path, env, fs)
    ensures call.symbol == symbol
    ensures call.args.flags == args.flags && call.args.mode == args.mode
    ensures call.args.path == args.path || call.args.path in fs
  {
    match GetFakePath(args.path, env, fs)
    case Ok(fakePath) => RealCall(symbol, OpenArgs(fakePath, args.flags, args.mode))
    case Err(_) => RealCall(symbol, args)
  }

  /** The `open` hook: always hands on to the real `open`, with `flags` and `mode` untouched. */
  function MyOpen(args: OpenArgs, env: Env, fs: FileSystem): (call: RealCall)
    requires SliceIsSafe(args.path, env, fs)
    ensures call.symbol == Open
    ensures call.args.flags == args.flags && call.args.mode == args.mode
  {
    Hook(Open, args, env, fs)
  }

  /** The `open64` hook: always hands on to the real `open64`, with `flags` and `mode` untouched. */
  function MyOpen64(args: OpenArgs, env: Env, fs: FileSystem): (call: RealCall)
    requires SliceIsSafe(args.path, env, fs)
    ensures call.symbol == Open64
    ensures call.args.flags == args.flags && call.args.mode == args.mode
  {
    Hook(Open64, args, env, fs)
  }

  /** The path handed on is the redirected one exactly when `get_fake_path` succeeds. */
  lemma ForwardsRedirectOrOriginal(symbol: Symbol, args: OpenArgs, env: Env, fs: FileSystem)
    requires SliceIsSafe(args.path, env, fs)
    ensures var r := GetFakePath(args.path, env, fs);
      Hook(symbol, args, env, fs).args.path == if r.Ok? then r.value else args.path
  {
  }

  /** Every failure degrades to the original call, unchanged. */
  lemma FailureIsPassThrough(symbol: Symbol, args: OpenArgs, env: Env, fs: FileSystem)
    requires SliceIsSafe(args.path, env, fs) && GetFakePath(args.path, env, fs).Err?
    ensures Hook(symbol, args, env, fs) == RealCall(symbol, args)
  {
  }

  /** Without FAKE_ROOT every call is handed on exactly as it was made. */
  lemma UnconfiguredIsTransparent(symbol: Symbol, args: OpenArgs, env: Env, fs: FileSystem)
    requires EnvFakeRoot !in env
    ensures SliceIsSafe(args.path, env, fs)
    ensures Hook(symbol, args, env, fs) == RealCall(symbol, args)
  {
    UnsetRootIsError(env, fs);
  }

  /** A path with no counterpart under the root opens the real file. */
  lemma MissingShadowFileFallsBack(symbol: Symbol, args: OpenArgs, env: Env, fs: FileSystem)
    requires ValidUtf8(args.path) && GetFakeRoot(env, fs).Ok? && CanSliceFromOne(args.path)
    requires Join(GetFakeRoot(env, fs).value, args.path[1..]) !in fs
    ensures Hook(symbol, args, env, fs) == RealCall(symbol, args)
  {
    SuccessIsJoin(args.path, env, fs);
  }

  /**
   * A path with a counterpart under the root opens that counterpart: the
   * root joined with the path minus its leading `/`.
   */
  lemma ShadowFileIsOpened(symbol: Symbol, args: OpenArgs, env: Env, fs: FileSystem)
    requires ValidUtf8(args.path) && GetFakeRoot(env, fs).Ok? && CanSliceFromOne(args.path)
    requires Join(GetFakeRoot(env, fs).value, args.path[1..]) in fs
    ensures Hook(symbol, args, env, fs) ==
      RealCall(symbol, OpenArgs(Join(GetFakeRoot(env, fs).value, args.path[1..]), args.flags, args.mode))
  {
    SuccessIsJoin(args.path, env, fs);
  }

  /**
   * For a path whose second byte is not `/`: whenever the path handed on
   * differs from the caller's, the root was valid and the new path exists
   * and starts with the root, followed by a separator unless the root
   * already ends in one (as bytes: `..` and symbolic links are not
   * resolved). A path starting `//` is the other case, where the join
   * discards the root (`DoubleSlashEscapesRoot`).
   */
  lemma ChangedPathIsUnderRoot(symbol: Symbol, args: OpenArgs, env: Env, fs: FileSystem)
    requires SliceIsSafe(args.path, env, fs)
    requires Hook(symbol, args, env, fs).args.path != args.path
    requires !IsAbsolute(args.path[1..])
    ensures GetFakeRoot(env, fs).Ok?
    ensures var p := Hook(symbol, args, env, fs).args.path;
      p in fs && RelativeTo(p, GetFakeRoot(env, fs).value) == Some(args.path[1..])
  {
    RedirectStaysUnderRoot(args.path, env, fs);
  }

  /**
   * The scenario of the integration test in src/lib.rs, with shorter names:
   * `/t` for the temporary directory and `/e` for `/etc/hosts`. With
   * FAKE_ROOT `/t` and a shadow file `/t/e`, opening `/e` opens `/t/e`;
   * without the shadow file, `/e` itself is opened.
   */
  lemma ShadowFileScenario(flags: CInt, mode: CInt)
    ensures var root: Bytes := [0x2F, 0x74];
      var input: Bytes := [0x2F, 0x65];
      var shadow: Bytes := [0x2F, 0x74, 0x2F, 0x65];
      var env := map[EnvFakeRoot := root];
      SliceIsSafe(input, env, {root, shadow}) && SliceIsSafe(input, env, {root}) &&
      MyOpen(OpenArgs(input, flags, mode), env, {root, shadow}) == RealCall(Open, OpenArgs(shadow, flags, mode)) &&
      MyOpen(OpenArgs(input, flags, mode), env, {root}) == RealCall(Open, OpenArgs(input, flags, mode))
  {
    var root: Bytes := [0x2F, 0x74];
    var input: Bytes := [0x2F, 0x65];
    var shadow: Bytes := [0x2F, 0x74, 0x2F, 0x65];
    var env := map[EnvFakeRoot := root];
    AsciiIsValid(root);
    AsciiIsValid(input);
    assert input[1..] == [0x65];
    assert Join(root, input[1..]) == shadow;
    ShadowFileIsOpened(Open, OpenArgs(input, flags, mode), env, {root, shadow});
    MissingShadowFileFallsBack(Open, OpenArgs(input, flags, mode), env, {root});
  }

  /** `open` and `open64` make the same choice of path and arguments. */
  lemma OpenAndOpen64Agree(args: OpenArgs, env: Env, fs: FileSystem)
    requires SliceIsSafe(args.path, env, fs)
    ensures MyOpen(args, env, fs).args == MyOpen64(args, env, fs).args
  {
  }
}
