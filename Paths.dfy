/**
 * The parts of Rust's `std::path` on Unix that the redirection relies on:
 * `Path::is_absolute` and `Path::join`, over raw path bytes.
 */
module Paths {
  import opened Wrappers
  import opened Utf8

  /** The path separator `/`. */
  const Separator: Byte := 0x2F

  /** On Unix a path is absolute exactly when it starts with `/`. */
  predicate IsAbsolute(p: Bytes) {
    |p| > 0 && p[0] == Separator
  }

  predicate EndsWithSeparator(p: Bytes) {
    |p| > 0 && p[|p| - 1] == Separator
  }

  /**
   * `base.join(rel)`: an absolute `rel` replaces `base`; otherwise `rel` is
   * appended, with a separator in between unless `base` is empty or already
   * ends with one.
   */
  function Join(base: Bytes, rel: Bytes): (r: Bytes)
    ensures IsAbsolute(rel) ==> r == rel
    ensures !IsAbsolute(rel) ==> |base| + |rel| <= |r| && r[..|base|] == base && r[|r| - |rel|..] == rel
    ensures IsAbsolute(base) ==> IsAbsolute(r)
  {
    if IsAbsolute(rel) then rel
    else if |base| > 0 && !EndsWithSeparator(base) then base + [Separator] + rel
    else base + rel
  }

  /**
   * The inverse of joining onto `base`: the part of `p` after `base` and the
   * separator that `Join` would have placed, or None when `p` does not lie
   * under `base` in that sense.
   */
  function RelativeTo(p: Bytes, base: Bytes): (r: Option<Bytes>)
    ensures r.Some? ==> |r.value| <= |p| && p[|p| - |r.value|..] == r.value
  {
    var prefix := if |base| > 0 && !EndsWithSeparator(base) then base + [Separator] else base;
    if |prefix| <= |p| && p[..|prefix|] == prefix then Some(p[|prefix|..]) else None
  }

  /** Stripping `base` off a joined path gives back the relative part. */
  lemma RelativeToJoin(base: Bytes, rel: Bytes)
    requires !IsAbsolute(rel)
    ensures RelativeTo(Join(base, rel), base) == Some(rel)
  {
    var j := Join(base, rel);
    if |base| > 0 && !EndsWithSeparator(base) {
      assert j == (base + [Separator]) + rel;
      assert j[..|base| + 1] == base + [Separator];
    } else {
      assert j[..|base|] == base;
    }
  }

  /** Joining the relative part back onto `base` gives back the path. */
  lemma JoinRelativeTo(p: Bytes, base: Bytes)
    requires RelativeTo(p, base).Some? && !IsAbsolute(RelativeTo(p, base).value)
    ensures Join(base, RelativeTo(p, base).value) == p
  {
    var prefix := if |base| > 0 && !EndsWithSeparator(base) then base + [Separator] else base;
    assert p == p[..|prefix|] + p[|prefix|..];
  }
}
