# fakeroot: the path-redirection decision

fakeroot is a shared object loaded with `LD_PRELOAD`. It intercepts `open`
and `open64` and, when a file with the same path exists under the directory
named by the `FAKE_ROOT` environment variable, opens that file instead. This
project models the decision it makes on each call as pure Dafny functions:

- `FakeRoot.GetFakeRoot` (`get_fake_root`): read `FAKE_ROOT`; fail if it is
  unset or not UTF-8, then if it is not absolute, then if it does not exist;
  otherwise return the value exactly as given.
- `FakeRoot.GetFakePath` (`get_fake_path`): fail on input that is not UTF-8;
  resolve the root (afresh on every call) and fail with its message; drop the
  input's first byte, join the rest onto the root with `std::path` rules, and
  succeed only if the joined path exists.
- `Hooks.MyOpen` / `Hooks.MyOpen64`: hand the call on to the real `open` /
  `open64` with the redirected path on success and the caller's path on
  failure; `flags` and `mode` pass through unchanged either way.

The environment is a map from variable name to raw bytes. The filesystem is
the set of paths for which `exists()` holds, passed in and constant during a
call. Paths are byte sequences. `Utf8` decides well-formed UTF-8 as
`str::from_utf8` does (the table of well-formed byte sequences in section 3.9
of the Unicode Standard). `Paths` gives `Path::is_absolute` and `Path::join`
on Unix.

Modules: `Wrappers` (Option, Result), `Utf8`, `Paths`, `FakeRoot`, `Hooks`.

Points where the code does something other than its comments or a reader
might expect; the model follows the code:

- The comment at src/lib.rs:28 calls `FAKE_ROOT` a "runtime cache", but the
  `OnceCell` at src/lib.rs:29 is a `const`, so every use builds a fresh cell.
  `get_fake_root` therefore runs on every call, and `GetFakePath` calls
  `GetFakeRoot` directly.
- The comment at src/lib.rs:78 trims the leading `/` so that `join` keeps the
  root. Only one byte is trimmed, so an input like `//x` still reaches
  `PathBuf::join` as an absolute path and yields `/x`
  (`DoubleSlashEscapesRoot`).
- `&path_str[1..]` at src/lib.rs:79 panics on an empty path, or on a path
  whose first character is longer than one byte, once the root is valid.
  What follows such a panic depends on the `redhook::hook!` wrapper, which is
  not part of this model. The model makes the slice's demand a precondition,
  `SliceIsSafe`.

## Model

| member | source | states |
|---|---|---|
| FakeRoot.EnvVar | src/lib.rs:42 | `env::var` succeeds exactly when the variable is set and its value is valid UTF-8, and then returns that value; it is "not present" exactly when unset |
| FakeRoot.GetFakeRoot | src/lib.rs:41-57 | a root that resolves is absolute, exists and is valid text |
| FakeRoot.RootError.Message | src/lib.rs:49-52 | every root error has a non-empty message, and the "is not absolute" and "does not exist on disk" messages name FAKE_ROOT first |
| FakeRoot.UnsetRootIsError | src/lib.rs:42-55 | an unset FAKE_ROOT gives the "not present" error |
| FakeRoot.RelativeRootIsError | src/lib.rs:44-52 | a FAKE_ROOT that is not absolute gives "is not absolute", even when that path exists: absoluteness is checked first |
| FakeRoot.MissingRootIsError | src/lib.rs:46-50 | an absolute FAKE_ROOT that does not exist gives "does not exist on disk" |
| FakeRoot.RootOkIff | src/lib.rs:43-47 | the root resolves iff FAKE_ROOT is set, valid text, absolute and existing, and it is then the value exactly |
| FakeRoot.RootConsultsOnlyItself | src/lib.rs:45-47 | resolving the root looks at the filesystem only for the root path itself |
| FakeRoot.GetFakePath | src/lib.rs:60-87 | a redirected path exists and is absolute |
| FakeRoot.SliceIsSafe | src/lib.rs:79 | the demand `&path_str[1..]` makes so as not to panic: whenever the input decodes and the root resolves, the input is non-empty and index 1 is a char boundary (`Utf8.CanSliceFromOne`) |
| FakeRoot.InvalidInputFailsFirst | src/lib.rs:62-67 | input that is not UTF-8 fails with the decode error whatever the environment and filesystem: decoding happens before the root is looked up |
| FakeRoot.RootFailurePropagates | src/lib.rs:70-75 | a root failure is returned with the root error's message, and the answer is the same on any filesystem that agrees about the root path, so no candidate is consulted |
| FakeRoot.SuccessIsJoin | src/lib.rs:79-86 | with valid input, a valid root and a one-byte first character (so that the slice `[1..]` does not panic), the result is Ok(join(root, input[1..])) if that path exists and "no file found in fake root" otherwise |
| FakeRoot.OkOnlyForExistingCandidate | src/lib.rs:77-86 | an Ok result implies valid input, a valid root, a safe slice, and a value equal to join(root, input[1..]) |
| FakeRoot.SliceIsSafeIffAsciiHead | src/lib.rs:79 | once decoding and the root succeed, the slice `[1..]` is safe iff the input is non-empty and its first character is a single byte |
| FakeRoot.RedirectStaysUnderRoot | src/lib.rs:77-79 | unless the input's second byte is `/`, a redirected path starts with the root, followed by a separator unless the root already ends in one, and stripping that prefix gives back the input minus its first byte (a byte-prefix statement: `..` and symbolic links are not resolved, see "## Left out") |
| FakeRoot.DoubleSlashEscapesRoot | src/lib.rs:78-79 | for an input starting `//`, the join discards the root and the candidate is the input minus its first byte |
| FakeRoot.FirstByteIsDropped | src/lib.rs:79 | the first byte is dropped without any check for `/`: any single-byte first character gives the same result as `/` |
| FakeRoot.RedirectIsValidUtf8 | src/lib.rs:79-86 | a redirected path is valid UTF-8 |
| FakeRoot.RedirectHasNoNul | src/lib.rs:86 | with no NUL byte in the input or in FAKE_ROOT, a redirected path has no NUL byte, so `CString::new(..).unwrap()` cannot panic |
| FakeRoot.ResultFollowsCurrentRoot | src/lib.rs:70 | the result depends on the environment only through the root resolved on this call: two environments that resolve to the same root give the same answer |
| Paths.Join | src/lib.rs:79 | an absolute relative part replaces the base; otherwise the result starts with the base, ends with the relative part, and is absolute when the base is |
| Paths.RelativeToJoin | src/lib.rs:78-79 | stripping the base off `join(base, rel)` gives back `rel` when `rel` is not absolute |
| Paths.JoinRelativeTo | src/lib.rs:78-79 | when the stripped part does not start with `/`, joining it back onto the base gives back the path (for `/r//x` under `/r` the stripped part is `/x`, and joining it discards the base) |
| Paths.IsAbsolute | src/lib.rs:45 | `Path::is_absolute` on Unix: a path is absolute exactly when its first byte is `/`; `Join` uses the same test on its argument (src/lib.rs:79) |
| Utf8.LeadingCharLength | src/lib.rs:62 | a well-formed first character is 1 to 4 bytes long; it is one byte exactly for an ASCII byte; it starts with a non-continuation byte and continues with continuation bytes |
| Utf8.SliceFromOneIffAsciiHead | src/lib.rs:79 | on valid UTF-8, index 1 is a char boundary iff the first byte is ASCII, and the rest is then valid UTF-8 |
| Utf8.ConcatIsValid | src/lib.rs:79 | the concatenation of two valid UTF-8 sequences is valid UTF-8, so joining decoded parts gives text |
| Utf8.CharWidth | src/lib.rs:62 | the standard library's `utf8_char_width`: the length of the character a byte starts (1 exactly for ASCII, at most 4), or 0 for a continuation byte or a byte that never starts a well-formed character |
| Utf8.ValidUtf8 | src/lib.rs:62 | `str::from_utf8` succeeds, and the UTF-8 half of `env::var` at src/lib.rs:42 holds: accepts exactly the sequences of well-formed characters of the table in section 3.9 of the Unicode Standard; its contract: such a sequence never starts with a continuation byte, and its last byte is ASCII or a continuation byte, never a lead byte |
| Utf8.IsCharBoundary | src/lib.rs:79 | `str::is_char_boundary(i)`: `i` is 0, the length, or the index of a byte that is not a continuation byte |
| Utf8.CanSliceFromOne | src/lib.rs:79 | `&s[1..]` does not panic: the string is non-empty and index 1 is a char boundary |
| Hooks.Hook | src/lib.rs:94-100 | the call handed on targets the same symbol, has the same flags and mode, and has the caller's path or an existing path |
| Hooks.MyOpen | src/lib.rs:92-103 | `open` always hands on to the real `open` with `flags` and `mode` unchanged |
| Hooks.MyOpen64 | src/lib.rs:106-117 | `open64` always hands on to the real `open64` with `flags` and `mode` unchanged |
| Hooks.ForwardsRedirectOrOriginal | src/lib.rs:95-100 | the path handed on is the redirected path when `get_fake_path` is Ok and the caller's path otherwise |
| Hooks.FailureIsPassThrough | src/lib.rs:97-99 | on any error, the original call is handed on unchanged |
| Hooks.UnconfiguredIsTransparent | src/lib.rs:94-99 | with FAKE_ROOT unset, every call with a non-null path is handed on exactly as it was made, and the `[1..]` slice is never reached |
| Hooks.MissingShadowFileFallsBack | src/lib.rs:80-81 | a path with no counterpart under the root opens the caller's path |
| Hooks.ShadowFileIsOpened | src/lib.rs:94-96 | a path with a counterpart under the root opens join(root, path[1..]) with the same flags and mode |
| Hooks.ChangedPathIsUnderRoot | src/lib.rs:94-96 | for a path whose second byte is not `/`: when the path handed on differs from the caller's, the root was valid, and the new path exists and starts with the root, followed by a separator unless the root already ends in one (as bytes only: `..` and symbolic links are not resolved, see "## Left out"; a path starting `//` escapes the root, see `FakeRoot.DoubleSlashEscapesRoot`) |
| Hooks.ShadowFileScenario | src/lib.rs:137-153 | the integration test's scenario with shorter names (root `/t`, input `/e` for `/etc/hosts`): with the shadow file `/t/e` present, `open("/e")` hands on `/t/e` with the same flags and mode; without it, the call is handed on unchanged |
| Hooks.OpenAndOpen64Agree | src/lib.rs:92-117 | `open` and `open64` choose the same path and arguments |

## Left out

- The interposition machinery (`redhook::hook!`, `redhook::real!`) and the real `open`/`open64` system calls: foreign code. The model stops at the call handed on.
- The `log!` macro, the `DEBUG` check and the `eprintln!` output: they write to stderr and do not change any result.
- The `OnceCell`: it is a `const`, so it caches nothing.
- Real `env::var` and `Path::exists`: they become the environment and filesystem parameters.
- FakeRoot.RootError.Message: the text for a value that is not valid unicode leaves out the debug rendering of that value, and the two `env::var` texts come from the standard library, not from src/lib.rs.
- FakeRoot.GetFakePath: the decode error does not carry the `Utf8Error` details (`valid_up_to`, error length) that end up only in the log text.
- FakeRoot.GetFakePath: the panic of `&path_str[1..]` (empty path, or a multi-byte first character, with a valid root) is a precondition rather than a modelled outcome. What the `redhook::hook!` wrapper does with a panic is outside this model.
- A NULL or unterminated `path` pointer (undefined behaviour in `CStr::from_ptr`, src/lib.rs:94,108) is outside the model: paths are byte strings, so every modelled call has a valid C string.
- The filesystem is a set of exact byte strings. Path normalisation, symbolic links, and `exists()` failing for reasons other than absence (such as permissions) are not modelled. "Under the root" in this model therefore means "starts with the root, followed by a separator unless the root already ends in one": with root `/t`, the input `/../etc/passwd` is handed on as `/t/../etc/passwd` whenever that path exists, which the kernel resolves to `/etc/passwd`; a symbolic link inside the root can point outside it in the same way.
- `CString::new(..).unwrap()`: treated as the identity on bytes. `RedirectHasNoNul` shows it cannot fail on inputs from C strings and the environment.
- The integration test (src/lib.rs:119-153): running `cat` under `LD_PRELOAD` and reading its output is process I/O. The redirection decision it exercises is stated by `Hooks.ShadowFileScenario`, with shorter names because literal UTF-8 checks grow costly for the verifier with the length of the literal.
