/**
 * The path and string helpers of the keibot FUSE file system
 * (practice-3/fuse/keibot.c).  A C string is modelled by the sequence of
 * its characters before the terminating NUL; a char stands for one byte.
 */
module KeibotPath {
  import opened Wrappers
  import opened Decimal

  const MAX_FILE_NAME_LEN: nat := 1024

  /** strnlen(s, MAX_FILE_NAME_LEN). */
  function Strnlen(s: string): nat
  {
    if |s| < MAX_FILE_NAME_LEN then |s| else MAX_FILE_NAME_LEN
  }

  /**
   * The length is_parent_path and get_relative_name compare on: strnlen,
   * less one trailing '/' (so "/" itself has length 0).  The source reads
   * s[len - 1], so the path must not be empty.
   */
  function StripLen(p: string): (n: nat)
    requires |p| > 0
    ensures n <= |p| && n <= MAX_FILE_NAME_LEN
  {
    var n := Strnlen(p);
    if p[n - 1] == '/' then n - 1 else n
  }

  /** The path with the length StripLen gives it. */
  function Stripped(p: string): (s: string)
    requires |p| > 0
    ensures |s| == StripLen(p)
  {
    p[..StripLen(p)]
  }

  predicate PrefixOf(a: string, b: string)
  {
    |a| <= |b| && b[..|a|] == a
  }

  /** strchr(s + from, c): the first position at or after `from` holding c. */
  function FindChar(s: string, from: nat, c: char): (r: Option<nat>)
    requires from <= |s|
    ensures r.Some? ==> from <= r.value < |s| && s[r.value] == c
    ensures r.Some? ==> forall k | from <= k < r.value :: s[k] != c
    ensures r.None? <==> forall k | from <= k < |s| :: s[k] != c
    decreases |s| - from
  {
    if from == |s| then None
    else if s[from] == c then Some(from)
    else FindChar(s, from + 1, c)
  }

  /**
   * is_parent_path: p2 lies under p1.  With `strict`, no '/' may follow in
   * the rest of p2 (searched to its end, past the length cap and
   * including a trailing '/').
   */
  predicate IsParentPath(p1: string, p2: string, strict: bool)
    requires |p1| > 0 && |p2| > 0
  {
    var l1, l2 := StripLen(p1), StripLen(p2);
    && l1 < l2
    && p1[..l1] == p2[..l1]
    && p2[l1] == '/'
    && (!strict || FindChar(p2, l1 + 1, '/').None?)
  }

  /** The prefix reading of is_parent_path, both ways. */
  lemma ParentMeansPrefix(p1: string, p2: string, strict: bool)
    requires |p1| > 0 && |p2| > 0
    ensures IsParentPath(p1, p2, false) <==> PrefixOf(Stripped(p1) + "/", Stripped(p2))
    ensures IsParentPath(p1, p2, true) <==>
              PrefixOf(Stripped(p1) + "/", Stripped(p2)) && forall k | StripLen(p1) < k < |p2| :: p2[k] != '/'
  {
    var l1 := StripLen(p1);
    if PrefixOf(Stripped(p1) + "/", Stripped(p2)) {
      assert Stripped(p2)[..l1] == (Stripped(p1) + "/")[..l1];
      assert p2[l1] == Stripped(p2)[l1] == (Stripped(p1) + "/")[l1];
    }
    if IsParentPath(p1, p2, false) {
      assert Stripped(p2)[..l1 + 1] == Stripped(p1) + "/";
    }
  }

  /** Lying under is transitive. */
  lemma ParentTransitive(a: string, b: string, c: string)
    requires |a| > 0 && |b| > 0 && |c| > 0
    requires IsParentPath(a, b, false) && IsParentPath(b, c, false)
    ensures IsParentPath(a, c, false)
  {
    ParentMeansPrefix(a, b, false);
    ParentMeansPrefix(b, c, false);
    ParentMeansPrefix(a, c, false);
    var x, y, z := Stripped(a) + "/", Stripped(b), Stripped(c);
    assert z[..|x|] == z[..|y|][..|x|];
  }

  /** No path lies under itself. */
  lemma ParentIrreflexive(p: string, strict: bool)
    requires |p| > 0
    ensures !IsParentPath(p, p, strict)
  {
  }

  /** "/" is the parent of every other absolute path, and only of absolute paths. */
  lemma RootIsParent(p: string)
    requires |p| > 0
    ensures IsParentPath("/", p, false) <==> p[0] == '/' && |p| >= 2
  {
    if p[0] == '/' && |p| >= 2 {
      assert StripLen(p) >= 1;
    }
  }

  /**
   * get_relative_name: the component of p2 right after p1 and its '/',
   * ending before the next '/' or at the (stripped) end of p2.  The source
   * calls it only for strict children, which gives it this precondition.
   */
  function RelativeName(p1: string, p2: string): (name: string)
    requires |p1| > 0 && |p2| > 0
    requires StripLen(p1) < StripLen(p2)
    ensures forall k | 0 <= k < |name| :: name[k] != '/'
  {
    var first := StripLen(p1) + 1;
    var last := match FindChar(p2, first, '/')
                case Some(k) => k
                case None => StripLen(p2);
    p2[first..last]
  }

  /** For a strict child, p1, a '/' and the relative name put back together the child's path. */
  lemma RelativeNameJoins(p1: string, p2: string)
    requires |p1| > 0 && |p2| > 0
    requires IsParentPath(p1, p2, true)
    ensures Stripped(p1) + "/" + RelativeName(p1, p2) == Stripped(p2)
  {
    var l1 := StripLen(p1);
    assert Stripped(p2) == p2[..l1] + [p2[l1]] + p2[l1 + 1..StripLen(p2)];
  }

  /**
   * concatenate: strncpy into a zeroed 1024-byte buffer, then strncat of
   * at most 1024 - strnlen(s1) bytes.  strncat writes its NUL after the
   * copied bytes, inside the buffer only when the total is below 1024.
   */
  function Concatenate(s1: string, s2: string): (r: string)
    requires |s1| + |s2| < MAX_FILE_NAME_LEN
    ensures r == s1 + s2
  {
    var copied := s1[..Strnlen(s1)];
    var room := MAX_FILE_NAME_LEN - Strnlen(s1);
    copied + s2[..if |s2| < room then |s2| else room]
  }

  /** pat occurs in s at position k. */
  predicate OccursAt(s: string, pat: string, k: nat)
  {
    k + |pat| <= |s| && s[k..k + |pat|] == pat
  }

  /** strstr(s + from, pat): the first position at or after `from` where pat occurs. */
  function FirstOccurrence(s: string, pat: string, from: nat): (r: Option<nat>)
    requires from <= |s|
    ensures r.Some? ==> from <= r.value && OccursAt(s, pat, r.value)
    ensures r.Some? ==> forall k | from <= k < r.value :: !OccursAt(s, pat, k)
    ensures r.None? <==> forall k | from <= k :: !OccursAt(s, pat, k)
    decreases |s| - from
  {
    if from + |pat| > |s| then None
    else if OccursAt(s, pat, from) then Some(from)
    else FirstOccurrence(s, pat, from + 1)
  }

  /**
   * What replace_first_after needs to stay inside its 1024-byte buffer: a
   * terminated copy of `path`, a search start inside it, and room for the
   * rewritten string and its NUL.
   */
  predicate ReplaceFits(parent: string, path: string, target: string, replacement: string)
  {
    && Strnlen(parent) <= |path| < MAX_FILE_NAME_LEN
    && (FirstOccurrence(path, target, Strnlen(parent)).Some? ==> |path| - |target| + |replacement| < MAX_FILE_NAME_LEN)
  }

  /**
   * replace_first_after: the first occurrence of `target` starting at or after
   * strnlen(parent) is replaced by `replacement` (a memmove of the tail, then a
   * memcpy); without one the copy of `path` comes back unchanged.
   */
  function ReplaceFirstAfter(parent: string, path: string, target: string, replacement: string): (r: string)
    requires ReplaceFits(parent, path, target, replacement)
    ensures Strnlen(parent) <= |r| < MAX_FILE_NAME_LEN
    ensures r[..Strnlen(parent)] == path[..Strnlen(parent)]
    ensures FirstOccurrence(path, target, Strnlen(parent)).None? ==> r == path
  {
    match FirstOccurrence(path, target, Strnlen(parent))
    case None => path
    case Some(i) => path[..i] + replacement + path[i + |target|..]
  }

  /** Around the first occurrence after the parent, the rewritten string keeps path's text. */
  lemma ReplaceFirstAfterSplices(parent: string, path: string, target: string, replacement: string)
    requires ReplaceFits(parent, path, target, replacement)
    requires FirstOccurrence(path, target, Strnlen(parent)).Some?
    ensures var i := FirstOccurrence(path, target, Strnlen(parent)).value;
            var r := ReplaceFirstAfter(parent, path, target, replacement);
            && |r| == |path| - |target| + |replacement|
            && r[..i] == path[..i]
            && r[i..i + |replacement|] == replacement
            && r[i + |replacement|..] == path[i + |target|..]
  {
  }

  const EMOJI_PREFIX: string := ":emoji"

  /** atoi: optional white space, an optional sign, then the longest run of digits (0 if none). */
  function Atoi(s: string): int
  {
    var i := SkipSpace(s, 0);
    var negative := i < |s| && s[i] == '-';
    var start := if i < |s| && (s[i] == '-' || s[i] == '+') then i + 1 else i;
    var magnitude := DigitsValue(s, start, DigitRun(s, start));
    if negative then -(magnitude as int) else magnitude
  }

  /** get_emoji_id: -1 unless the buffer starts with ":emoji", else atoi of what follows. */
  function EmojiId(buf: string): int
  {
    if |buf| < |EMOJI_PREFIX| || buf[..|EMOJI_PREFIX|] != EMOJI_PREFIX then -1
    else Atoi(buf[|EMOJI_PREFIX|..])
  }

  /** ":emoji" and a number, followed by anything but a digit, selects that emoji. */
  lemma EmojiIdOfNumber(n: nat, rest: string)
    requires rest == [] || !IsDigit(rest[0])
    ensures EmojiId(EMOJI_PREFIX + NatToString(n) + rest) == n
  {
    var buf := EMOJI_PREFIX + NatToString(n) + rest;
    assert buf[..|EMOJI_PREFIX|] == EMOJI_PREFIX;
    assert buf[|EMOJI_PREFIX|..] == NatToString(n) + rest;
    AtoiOfNumber(n, rest);
  }

  /** atoi reads back a rendered number followed by anything but a digit. */
  lemma AtoiOfNumber(n: nat, rest: string)
    requires rest == [] || !IsDigit(rest[0])
    ensures Atoi(NatToString(n) + rest) == n
  {
    var digits := NatToString(n);
    var t := digits + rest;
    assert t[0] == digits[0] && IsDigit(t[0]);
    assert t[0..] == digits + rest;
    DigitsAt(t, 0, digits, rest);
    NatToStringValue(n);
  }

  /** A buffer that does not start with the prefix never selects an emoji. */
  lemma EmojiIdNeedsPrefix(buf: string)
    requires EmojiId(buf) >= 0
    ensures |buf| >= |EMOJI_PREFIX| && buf[..|EMOJI_PREFIX|] == EMOJI_PREFIX
  {
  }

  /** What swtich_bot needs: non-empty bot paths and a safe rewrite in the branch it takes. */
  predicate SwitchBotFits(bot1Path: string, bot2Path: string, bot1: string, bot2: string, path: string)
  {
    && |bot1Path| > 0 && |bot2Path| > 0 && |path| > 0
    && (IsParentPath(bot1Path, path, false) ==> ReplaceFits("/", path, bot1, bot2))
    && (!IsParentPath(bot1Path, path, false) && IsParentPath(bot2Path, path, false) ==>
          ReplaceFits("/", path, bot2, bot1))
  }

  /**
   * swtich_bot: a path under one bot's directory is mirrored under the
   * other's by rewriting the first occurrence of the bot name after the
   * leading '/'; other paths have no mirror.
   */
  function SwitchBot(bot1Path: string, bot2Path: string, bot1: string, bot2: string, path: string): Option<string>
    requires SwitchBotFits(bot1Path, bot2Path, bot1, bot2, path)
  {
    if IsParentPath(bot1Path, path, false) then Some(ReplaceFirstAfter("/", path, bot1, bot2))
    else if IsParentPath(bot2Path, path, false) then Some(ReplaceFirstAfter("/", path, bot2, bot1))
    else None
  }

  /** A path under one bot's directory is rewritten to the same name under the other's. */
  lemma MirrorUnder(from: string, to: string, name: string)
    requires |from| > 0 && from[|from| - 1] != '/' && |name| > 0
    requires |from| + |name| + 2 < MAX_FILE_NAME_LEN && |to| + |name| + 2 < MAX_FILE_NAME_LEN
    ensures var path := "/" + from + "/" + name;
            && IsParentPath("/" + from, path, false)
            && ReplaceFits("/", path, from, to)
            && ReplaceFirstAfter("/", path, from, to) == "/" + to + "/" + name
  {
    var path := "/" + from + "/" + name;
    var p1 := "/" + from;
    assert StripLen(p1) == |p1|;
    assert path[..|p1|] == p1;
    assert IsParentPath(p1, path, false);
    assert path[1..1 + |from|] == from;
    assert FirstOccurrence(path, from, 1) == Some(1);
    assert path[..1] == "/";
    assert path[1 + |from|..] == "/" + name;
    assert Strnlen("/") == 1;
    assert ReplaceFirstAfter("/", path, from, to) == path[..1] + to + path[1 + |from|..];
    assert "/" + to + ("/" + name) == "/" + to + "/" + name;
  }

  /** A file under the first bot's directory, at any depth, is mirrored at the same name under the second's. */
  lemma SwitchBotMirrors(bot1: string, bot2: string, name: string)
    requires |bot1| > 0 && bot1[|bot1| - 1] != '/' && |name| > 0
    requires |bot1| + |name| + 2 < MAX_FILE_NAME_LEN && |bot2| + |name| + 2 < MAX_FILE_NAME_LEN
    ensures var path := "/" + bot1 + "/" + name;
            && SwitchBotFits("/" + bot1, "/" + bot2, bot1, bot2, path)
            && SwitchBot("/" + bot1, "/" + bot2, bot1, bot2, path) == Some("/" + bot2 + "/" + name)
  {
    MirrorUnder(bot1, bot2, name);
  }

  /**
   * A file under the second bot's directory, and not also under the first's
   * (which swtich_bot tests first), is mirrored at the same name under the first's.
   */
  lemma SwitchBotMirrorsBack(bot1: string, bot2: string, name: string)
    requires |bot2| > 0 && bot2[|bot2| - 1] != '/' && |name| > 0 && |bot1| > 0
    requires |bot1| + |name| + 2 < MAX_FILE_NAME_LEN && |bot2| + |name| + 2 < MAX_FILE_NAME_LEN
    requires !IsParentPath("/" + bot1, "/" + bot2 + "/" + name, false)
    ensures var path := "/" + bot2 + "/" + name;
            && SwitchBotFits("/" + bot1, "/" + bot2, bot1, bot2, path)
            && SwitchBot("/" + bot1, "/" + bot2, bot1, bot2, path) == Some("/" + bot1 + "/" + name)
  {
    MirrorUnder(bot2, bot1, name);
  }
}
