/**
 The name pipeline of `FileTasks`: the naming-store lookup, the sanitiser,
 the truncation, the `~i` collision suffix and the collision retry shared by
 directories and files.

 A resolved name is `CheckLength(StripBadChars(GetNameFromStore(name)))`;
 attempt `i` of the retry proposes that name, suffixed with `~i` when
 `i > 0`, followed by the file's extension (empty for directories).
 */
module Naming {
  import opened Text

  datatype Option<T> = None | Some(value: T) {
    function GetOr(default: T): T {
      match this
      case Some(v) => v
      case None => default
    }
  }

  /**
   The naming store, as far as the renamer sees it. `parse` is the outcome of
   `int.TryParse` on a name; `rows` is the `Container` table keyed by
   `NodeId`: a missing key is a query that returns no row, and a key mapped to
   `None` is a row whose `Name` column is NULL.
   */
  datatype NamingStore = NamingStore(parse: string -> Option<int>, rows: map<int, Option<string>>)

  /** The configuration values the pipeline reads: `MaxLength` and the store behind `ConnectionString`. */
  datatype Settings = Settings(maxLength: nat, store: NamingStore)

  /** Characters the sanitiser removes wherever they occur. */
  const Forbidden: set<char> := {'/', ':', '\'', '?'}

  /** Every character the sanitiser may remove: the forbidden ones and the two halves of a CRLF. */
  const Removable: set<char> := Forbidden + {'\r', '\n'}

  /* ---------------------------------------------------------------------- */
  /* StripBadChars                                                           */
  /* ---------------------------------------------------------------------- */

  /**
   Five ordinal replacements by the empty string, in this order: `/`, the
   two-character CRLF, `:`, `'`, `?`. The result is the input with some
   characters deleted, none of the forbidden characters survive, and only
   forbidden characters and carriage returns / line feeds are ever deleted.
   */
  function StripBadChars(input: string): (output: string)
    ensures IsSubsequence(output, input)
    ensures |output| <= |input|
    ensures forall c :: c in output ==> c !in Forbidden
    ensures Without(output, Removable) == Without(input, Removable)
  {
    var a := Erase(input, "/");
    var b := Erase(a, "\r\n");
    var c := Erase(b, ":");
    var d := Erase(c, "'");
    var e := Erase(d, "?");
    SubsequenceTransitive(e, d, c);
    SubsequenceTransitive(c, b, a);
    SubsequenceTransitive(e, c, a);
    SubsequenceTransitive(e, a, input);
    SubsequenceLength(e, input);
    EraseCharRemovesIt(input, '/');
    EraseCharRemovesIt(b, ':');
    EraseCharRemovesIt(c, '\'');
    EraseCharRemovesIt(d, '?');
    SubsequenceChars(e, a);
    SubsequenceChars(e, c);
    SubsequenceChars(e, d);
    EraseKeepsOthers(input, "/", Removable);
    EraseKeepsOthers(a, "\r\n", Removable);
    EraseKeepsOthers(b, ":", Removable);
    EraseKeepsOthers(c, "'", Removable);
    EraseKeepsOthers(d, "?", Removable);
    e
  }

  lemma AbsentCharDoesNotOccur(s: string, c: char)
    requires c !in s
    ensures !Occurs(s, [c])
  {
    forall k | 0 <= k <= |s|
      ensures !OccursAt(s, [c], k)
    {
      if k + 1 <= |s| {
        assert s[k..k + 1] == [s[k]];
      }
    }
  }

  /**
   The sanitiser leaves a name unchanged exactly when the name has no
   forbidden character and no CRLF pair.
   */
  lemma StripBadCharsFixpoint(s: string)
    ensures StripBadChars(s) == s <==> (forall c :: c in s ==> c !in Forbidden) && !Occurs(s, "\r\n")
  {
    var a := Erase(s, "/");
    var b := Erase(a, "\r\n");
    var c := Erase(b, ":");
    var d := Erase(c, "'");
    var e := Erase(d, "?");
    assert e == StripBadChars(s);
    if (forall x :: x in s ==> x !in Forbidden) && !Occurs(s, "\r\n") {
      AbsentCharDoesNotOccur(s, '/');
      EraseAbsent(s, "/");
      EraseAbsent(a, "\r\n");
      AbsentCharDoesNotOccur(s, ':');
      EraseAbsent(b, ":");
      AbsentCharDoesNotOccur(s, '\'');
      EraseAbsent(c, "'");
      AbsentCharDoesNotOccur(s, '?');
      EraseAbsent(d, "?");
    } else if Occurs(s, "\r\n") && e == s {
      SubsequenceLength(a, s);
      SubsequenceLength(b, a);
      SubsequenceTransitive(d, c, b);
      SubsequenceTransitive(e, d, b);
      SubsequenceLength(e, b);
      SubsequenceSameLength(a, s);
      EraseShrinks(a, "\r\n");
      assert false;
    }
  }

  /** Text without any removable character passes the sanitiser unchanged. */
  lemma CleanTextUnchanged(s: string)
    requires forall k :: 0 <= k < |s| ==> s[k] !in Removable
    ensures StripBadChars(s) == s
  {
    forall k | 0 <= k <= |s|
      ensures !OccursAt(s, "\r\n", k)
    {
      if k + 2 <= |s| {
        assert s[k..k + 2][0] == s[k];
      }
    }
    StripBadCharsFixpoint(s);
  }

  /** CRLF removal runs before `:` removal, so removing a colon can create a CRLF that stays. */
  lemma StripBadCharsNotIdempotent()
    ensures StripBadChars("\r:\n") == "\r\n"
    ensures StripBadChars(StripBadChars("\r:\n")) == ""
  {
    AbsentCharDoesNotOccur("\r:\n", '/');
    EraseAbsent("\r:\n", "/");
    assert Erase("\r:\n", "\r\n") == "\r:\n";
    assert Erase("\r:\n", ":") == "\r\n";
    assert Erase("\r\n", "'") == "\r\n";
    assert Erase("\r\n", "?") == "\r\n";
    assert Erase("\r\n", "/") == "\r\n";
    assert Erase("\r\n", "\r\n") == "";
  }

  lemma CrlfPassDoesNotRescan()
    ensures StripBadChars("\r\r\n\n") == "\r\n"
  {
    AbsentCharDoesNotOccur("\r\r\n\n", '/');
    EraseAbsent("\r\r\n\n", "/");
    assert Erase("\r\r\n\n", "\r\n") == "\r\n";
    assert Erase("\r\n", ":") == "\r\n";
    assert Erase("\r\n", "'") == "\r\n";
    assert Erase("\r\n", "?") == "\r\n";
  }

  lemma LoneLineBreaksKept()
    ensures StripBadChars("a\rb\n") == "a\rb\n"
  {
    assert forall k :: 0 <= k < |"a\rb\n"| ==> "a\rb\n"[k] !in Forbidden;
    forall k | 0 <= k <= |"a\rb\n"|
      ensures !OccursAt("a\rb\n", "\r\n", k)
    {
      var s := "a\rb\n";
      if k + 2 <= |s| {
        assert s[k..k + 2][0] == s[k] && s[k..k + 2][1] == s[k + 1];
      }
    }
    StripBadCharsFixpoint("a\rb\n");
  }

  /**
   Deleting a forbidden character can join a `\r` and a `\n` that were apart
   into a CRLF, which the next pass deletes: here both line breaks are lost.
   */
  lemma SlashRemovalFormsCrlf()
    ensures StripBadChars("\r/\n") == ""
  {
    assert Erase("\r/\n", "/") == "\r\n";
    assert Erase("\r\n", "\r\n") == "";
    EraseAbsent("", ":");
    EraseAbsent("", "'");
    EraseAbsent("", "?");
  }

  /** The CRLF pass does not rescan what it produced, and a clean name keeps its lone line breaks. */
  lemma StripBadCharsKeepsLineBreaks()
    ensures StripBadChars("\r\r\n\n") == "\r\n"
    ensures StripBadChars("a\rb\n") == "a\rb\n"
  {
    CrlfPassDoesNotRescan();
    LoneLineBreaksKept();
  }

  /* ---------------------------------------------------------------------- */
  /* CheckLength                                                             */
  /* ---------------------------------------------------------------------- */

  /** Truncation to `MaxLength` characters: the result is the longest prefix of the name that fits. */
  function CheckLength(name: string, maxLength: nat): (r: string)
    ensures r <= name
    ensures |r| <= maxLength
    ensures |name| <= maxLength ==> r == name
    ensures |name| > maxLength ==> |r| == maxLength
  {
    if |name| > maxLength then name[..maxLength] else name
  }

  lemma CheckLengthIdempotent(name: string, maxLength: nat)
    ensures CheckLength(CheckLength(name, maxLength), maxLength) == CheckLength(name, maxLength)
  {
  }

  /* ---------------------------------------------------------------------- */
  /* GetNameFromDB                                                           */
  /* ---------------------------------------------------------------------- */

  /** The row the store holds for `name`: none when the name is not an integer or no row has that id. */
  function RowFor(store: NamingStore, name: string): Option<Option<string>> {
    match store.parse(name)
    case None => None
    case Some(id) => if id in store.rows then Some(store.rows[id]) else None
  }

  /**
   The lookup substitution: a stored name replaces the original whatever its
   content; a NULL name reads as the empty string (`DBNull.ToString()`);
   without a row the original is kept.
   */
  function GetNameFromStore(store: NamingStore, name: string): (r: string)
    ensures RowFor(store, name).None? ==> r == name
    ensures RowFor(store, name) == Some(None) ==> r == ""
    ensures RowFor(store, name).Some? && RowFor(store, name).value.Some? ==> r == RowFor(store, name).value.value
  {
    match store.parse(name)
    case None => name
    case Some(id) =>
      if id !in store.rows then name
      else match store.rows[id]
        case None => ""
        case Some(stored) => stored
  }

  /* ---------------------------------------------------------------------- */
  /* Resolved names and candidates                                           */
  /* ---------------------------------------------------------------------- */

  /** Lookup, then sanitise, then truncate. */
  function ResolveName(cfg: Settings, name: string): (r: string)
    ensures |r| <= cfg.maxLength
    ensures forall c :: c in r ==> c !in Forbidden
    ensures IsSubsequence(r, GetNameFromStore(cfg.store, name))
  {
    var looked := GetNameFromStore(cfg.store, name);
    var clean := StripBadChars(looked);
    var r := CheckLength(clean, cfg.maxLength);
    assert IsSubsequence(r, clean) by {
      SubsequenceReflexive(r);
      SubsequenceOfPrefix(r, r, clean);
    }
    SubsequenceTransitive(r, clean, looked);
    SubsequenceChars(r, clean);
    r
  }

  /** A name with a stored row resolves from the stored name alone, whatever the original was. */
  lemma StoredNameWins(cfg: Settings, a: string, b: string)
    requires cfg.store.parse(a).Some? && cfg.store.parse(a) == cfg.store.parse(b)
    requires cfg.store.parse(a).value in cfg.store.rows
    ensures ResolveName(cfg, a) == ResolveName(cfg, b)
    ensures ResolveName(cfg, a) == CheckLength(StripBadChars(cfg.store.rows[cfg.store.parse(a).value].GetOr("")), cfg.maxLength)
  {
  }

  /** A looked-up name that is clean and short enough is the resolved name itself. */
  lemma CleanLookupResolvesToIt(cfg: Settings, name: string, v: string)
    requires GetNameFromStore(cfg.store, name) == v
    requires forall k :: 0 <= k < |v| ==> v[k] !in Removable
    requires |v| <= cfg.maxLength
    ensures ResolveName(cfg, name) == v
  {
    CleanTextUnchanged(v);
  }

  /** Without a row, a name resolves to its own sanitised, truncated form. */
  lemma NoRowFallsBack(cfg: Settings, name: string)
    requires RowFor(cfg.store, name).None?
    ensures ResolveName(cfg, name) == CheckLength(StripBadChars(name), cfg.maxLength)
  {
  }

  /**
   Without a row, a name resolves to itself exactly when it is clean (no
   forbidden character, no CRLF) and no longer than `MaxLength`.
   */
  lemma NoRowSettledIff(cfg: Settings, name: string)
    requires RowFor(cfg.store, name).None?
    ensures ResolveName(cfg, name) == name
        <==> (&& (forall c :: c in name ==> c !in Forbidden)
              && !Occurs(name, "\r\n")
              && |name| <= cfg.maxLength)
  {
    var clean := StripBadChars(name);
    StripBadCharsFixpoint(name);
  }

  /** The name proposed by attempt `i`: the resolved name, `~i` when `i > 0`, then the extension. */
  function Candidate(resolved: string, i: nat, ext: string): (c: string)
    ensures |c| >= |resolved| + |ext|
    ensures |c| == |resolved| + |ext| <==> i == 0
  {
    (if i == 0 then resolved else resolved + "~" + Decimal(i)) + ext
  }

  /**
   A candidate starts with the resolved name and ends with the extension; for
   `i > 0` what lies between is `~` followed by the decimal digits of `i`.
   */
  lemma CandidateShape(resolved: string, i: nat, ext: string)
    ensures var c := Candidate(resolved, i, ext);
            && resolved <= c
            && c[|c| - |ext|..] == ext
            && (i == 0 ==> c == resolved + ext)
            && (i > 0 ==> c[|resolved|] == '~' && ValueOf(c[|resolved| + 1..|c| - |ext|]) == i)
  {
    var c := Candidate(resolved, i, ext);
    assert c[..|resolved|] == resolved;
    if i > 0 {
      var mid := c[|resolved| + 1..|c| - |ext|];
      assert mid == Decimal(i);
      DecimalRoundTrip(i);
    }
  }

  /**
   The suffix comes after truncation, so a candidate is bounded by `MaxLength`
   plus the suffix and the extension, not by `MaxLength` alone.
   */
  lemma CandidateLength(cfg: Settings, name: string, i: nat, ext: string)
    ensures |Candidate(ResolveName(cfg, name), i, ext)| <= cfg.maxLength + |ext| + (if i == 0 then 0 else 1 + |Decimal(i)|)
    ensures i == 0 ==> |Candidate(ResolveName(cfg, name), i, ext)| <= cfg.maxLength + |ext|
  {
  }

  /** A six-character name truncated to `MaxLength` 3 gets the second candidate `abc~1`, two characters over the limit. */
  lemma CandidateExceedsMaxLength()
    ensures Candidate(CheckLength("abcdef", 3), 1, "") == "abc~1"
  {
    assert Decimal(1) == "1";
  }

  /** Different attempts propose different names. */
  lemma CandidatesDistinct(resolved: string, ext: string, i: nat, j: nat)
    requires i != j
    ensures Candidate(resolved, i, ext) != Candidate(resolved, j, ext)
  {
    var a := Candidate(resolved, i, ext);
    var b := Candidate(resolved, j, ext);
    if i != 0 && j != 0 && |Decimal(i)| == |Decimal(j)| {
      var n := |resolved| + 1;
      assert a[n..|a| - |ext|] == Decimal(i);
      assert b[n..|b| - |ext|] == Decimal(j);
      if Decimal(i) == Decimal(j) {
        DecimalInjective(i, j);
      }
    }
  }

  /* ---------------------------------------------------------------------- */
  /* Collision retry                                                         */
  /* ---------------------------------------------------------------------- */

  /** What the retry settles on, and at which attempt. */
  datatype Decision = Keep(attempt: nat) | MoveTo(target: string, attempt: nat)

  /** Every attempt below `n` proposed a name that exists and differs from the current one. */
  ghost predicate Exhausted(current: string, resolved: string, ext: string, taken: set<string>, n: nat) {
    forall j: nat :: j < n ==> Candidate(resolved, j, ext) in taken && Candidate(resolved, j, ext) != current
  }

  /** Attempt `k` is where the retry stops: all earlier attempts collided, this one is the current name or free. */
  ghost predicate SettlesAt(current: string, resolved: string, ext: string, taken: set<string>, k: nat) {
    && Exhausted(current, resolved, ext, taken, k)
    && (Candidate(resolved, k, ext) == current || Candidate(resolved, k, ext) !in taken)
  }

  /** Attempts whose names all exist are at most as many as the existing names. */
  lemma {:induction false} AttemptsBounded(resolved: string, ext: string, taken: set<string>, n: nat)
    requires forall j: nat :: j < n ==> Candidate(resolved, j, ext) in taken
    ensures n <= |taken|
    decreases n
  {
    if n > 0 {
      var last := Candidate(resolved, n - 1, ext);
      var rest := taken - {last};
      forall j: nat | j < n - 1
        ensures Candidate(resolved, j, ext) in rest
      {
        CandidatesDistinct(resolved, ext, j, n - 1);
      }
      AttemptsBounded(resolved, ext, rest, n - 1);
    }
  }

  /**
   The retry of `ProcessDir` / `ProcessFiles` from attempt `i`: stop when the
   candidate equals the current name, try `i + 1` when the candidate exists,
   move otherwise. It stops within `|taken| + 1` attempts, at the first attempt
   that is the current name or free.
   */
  function Retry(current: string, resolved: string, ext: string, taken: set<string>, i: nat): (d: Decision)
    requires Exhausted(current, resolved, ext, taken, i)
    ensures d.attempt >= i
    ensures d.attempt <= |taken|
    ensures SettlesAt(current, resolved, ext, taken, d.attempt)
    ensures d.Keep? <==> Candidate(resolved, d.attempt, ext) == current
    ensures d.MoveTo? ==> d.target == Candidate(resolved, d.attempt, ext) && d.target !in taken
    decreases |taken| - i
  {
    var c := Candidate(resolved, i, ext);
    AttemptsBounded(resolved, ext, taken, i);
    if current == c then Keep(i)
    else if c in taken then
      AttemptsBounded(resolved, ext, taken, i + 1);
      Retry(current, resolved, ext, taken, i + 1)
    else MoveTo(c, i)
  }

  /** The attempt the retry stops at is the unique one where it settles. */
  lemma SettlesAtUnique(current: string, resolved: string, ext: string, taken: set<string>, k: nat, m: nat)
    requires SettlesAt(current, resolved, ext, taken, k)
    requires SettlesAt(current, resolved, ext, taken, m)
    ensures k == m
  {
  }

  /** A retry started at attempt 0 moves to `t` at attempt `k` exactly when `k` is the first free attempt and proposes `t`. */
  lemma RetryMovesIff(current: string, resolved: string, ext: string, taken: set<string>, t: string, k: nat)
    ensures Retry(current, resolved, ext, taken, 0) == MoveTo(t, k)
        <==> (&& SettlesAt(current, resolved, ext, taken, k)
              && Candidate(resolved, k, ext) != current
              && t == Candidate(resolved, k, ext))
  {
    var d := Retry(current, resolved, ext, taken, 0);
    if SettlesAt(current, resolved, ext, taken, k) {
      SettlesAtUnique(current, resolved, ext, taken, k, d.attempt);
    }
  }

  /* ---------------------------------------------------------------------- */
  /* ProcessDir and ProcessFiles decisions                                   */
  /* ---------------------------------------------------------------------- */

  /**
   The decision `ProcessDir` takes for a directory called `name`, where
   `dirs` holds the names under the parent that `Directory.Exists` accepts.
   A move goes to a name no such directory has; a kept directory is one whose
   candidate is its own name.
   */
  function ProcessDir(cfg: Settings, name: string, dirs: set<string>): (d: Decision)
    ensures d.attempt <= |dirs|
    ensures forall j: nat :: j < d.attempt ==> Candidate(ResolveName(cfg, name), j, "") in dirs
    ensures SettlesAt(name, ResolveName(cfg, name), "", dirs, d.attempt)
    ensures d.Keep? <==> Candidate(ResolveName(cfg, name), d.attempt, "") == name
    ensures d.MoveTo? ==> d.target !in dirs && d.target != name
    ensures d.MoveTo? ==> d.target == Candidate(ResolveName(cfg, name), d.attempt, "")
  {
    Retry(name, ResolveName(cfg, name), "", dirs, 0)
  }

  /**
   The decision `ProcessFiles` takes for a file split into `base` and `ext`,
   where `files` holds the names under the parent that `File.Exists` accepts.
   The "unchanged" test compares `base`, without its extension, with the
   candidate, which carries the extension.
   */
  function ProcessFiles(cfg: Settings, base: string, ext: string, files: set<string>): (d: Decision)
    ensures d.attempt <= |files|
    ensures forall j: nat :: j < d.attempt ==> Candidate(ResolveName(cfg, base), j, ext) in files
    ensures SettlesAt(base, ResolveName(cfg, base), ext, files, d.attempt)
    ensures d.Keep? <==> Candidate(ResolveName(cfg, base), d.attempt, ext) == base
    ensures d.MoveTo? ==> d.target !in files && d.target != base
    ensures d.MoveTo? ==> d.target == Candidate(ResolveName(cfg, base), d.attempt, ext)
  {
    Retry(base, ResolveName(cfg, base), ext, files, 0)
  }

  /** A directory whose name already resolves to itself is left where it is. */
  lemma SettledDirKept(cfg: Settings, name: string, dirs: set<string>)
    requires ResolveName(cfg, name) == name
    ensures ProcessDir(cfg, name, dirs) == Keep(0)
  {
  }

  /** A directory whose resolved name is free moves there on the first attempt. */
  lemma FreeDirMovesFirstTry(cfg: Settings, name: string, dirs: set<string>)
    requires ResolveName(cfg, name) != name && ResolveName(cfg, name) !in dirs
    ensures ProcessDir(cfg, name, dirs) == MoveTo(ResolveName(cfg, name), 0)
  {
    assert Candidate(ResolveName(cfg, name), 0, "") == ResolveName(cfg, name);
  }

  /**
   A directory whose resolved name is taken by another directory moves to the
   resolved name with `~1` when that is free.
   */
  lemma TakenDirMovesToFirstSuffix(cfg: Settings, name: string, dirs: set<string>)
    requires ResolveName(cfg, name) != name && ResolveName(cfg, name) in dirs
    requires ResolveName(cfg, name) + "~1" != name && ResolveName(cfg, name) + "~1" !in dirs
    ensures ProcessDir(cfg, name, dirs) == MoveTo(ResolveName(cfg, name) + "~1", 1)
  {
    var r := ResolveName(cfg, name);
    var d := ProcessDir(cfg, name, dirs);
    assert Decimal(1) == "1";
    assert Candidate(r, 0, "") == r;
    assert Candidate(r, 1, "") == r + "~1";
    assert SettlesAt(name, r, "", dirs, 1);
    SettlesAtUnique(name, r, "", dirs, 1, d.attempt);
  }

  /**
   A file whose base resolves to itself and which has an extension is not
   skipped: its first candidate is its own name, which exists, so it moves to
   `base~1` plus the extension when that is free.
   */
  lemma SettledFileWithExtensionMoves(cfg: Settings, base: string, ext: string, files: set<string>)
    requires ResolveName(cfg, base) == base && |ext| > 0
    requires base + ext in files
    requires base + "~1" + ext !in files
    ensures ProcessFiles(cfg, base, ext, files) == MoveTo(base + "~1" + ext, 1)
  {
    var d := ProcessFiles(cfg, base, ext, files);
    assert Decimal(1) == "1";
    assert Candidate(base, 0, ext) == base + ext;
    assert Candidate(base, 1, ext) == base + "~1" + ext;
    assert SettlesAt(base, base, ext, files, 1);
    SettlesAtUnique(base, base, ext, files, 1, d.attempt);
  }

  /** A file without an extension whose base resolves to itself is left where it is. */
  lemma SettledFileWithoutExtensionKept(cfg: Settings, base: string, files: set<string>)
    requires ResolveName(cfg, base) == base
    ensures ProcessFiles(cfg, base, "", files) == Keep(0)
  {
    assert Candidate(base, 0, "") == base;
  }
}
