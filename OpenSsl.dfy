/** The OpenSSL directory ranker: scores the candidate directories by the
    certificate material they hold, picks the best one, and turns the
    choice into the three advisory lines of the final report. */
module OpenSsl {
  import opened Wrappers
  import opened Lists
  import opened PyText
  import opened FileSystem

  /** Conventional OpenSSL directories, in the order they are tried. */
  const DefaultOpenSslDirs: seq<string> := [
    "/usr/share/ssl",           // RHEL & Fedora
    "/etc/pki/tls",             // old RHEL & Fedora
    "/usr/lib/ssl",             // Debian
    "/etc/ssl",                 // Gentoo
    "/usr/local/ssl",
    "/System/Library/OpenSSL"   // macOS
  ]

  /** The first report line when no candidate is a directory. */
  const NotFoundMessage: string := "Openssl directory not found " + "in an expected location."

  // ---- the system default reported by `openssl version -d`

  /** `str(output).split('"')[1]`: the text after the first double quote,
      up to the next one. Output without a quote raises `IndexError`. */
  function DefaultDirFromVersionOutput(output: string): (r: Result<string, string>)
    ensures r.Success? <==> '"' in output
    ensures r.Success? ==> '"' !in r.value
  {
    var parts := Split(output, '"');
    if |parts| > 1 then Success(parts[1]) else Failure("list index out of range")
  }

  /** `_get_default_openssldir`, given the output of `openssl version -d`
      (`None` when the tool could not be run, which is no default). */
  function DefaultOpenSslDir(toolOutput: Option<string>): (r: Result<Option<string>, string>)
    ensures toolOutput.None? ==> r == Success(None)
    ensures toolOutput.Some? ==>
      (r.Success? <==> '"' in toolOutput.value) &&
      (r.Success? ==> r.value.Some? && '"' !in r.value.value)
  {
    match toolOutput
    case None => Success(None)
    case Some(output) =>
      match DefaultDirFromVersionOutput(output)
      case Success(dir) => Success(Some(dir))
      case Failure(e) => Failure(e)
  }

  /** A quoted directory after an unquoted prefix is what gets parsed,
      whether or not the closing quote is there. */
  lemma QuotedDirParsed(prefix: string, dir: string, rest: string)
    requires '"' !in prefix && '"' !in dir
    requires rest == [] || rest[0] == '"'
    ensures DefaultDirFromVersionOutput(prefix + ['"'] + dir + rest) == Success(dir)
  {
    assert prefix + ['"'] + dir + rest == prefix + ['"'] + (dir + rest);
    SplitAfterPiece(prefix, '"', dir + rest);
    if rest == [] {
      assert dir + rest == dir;
      SplitNoSep(dir, '"');
    } else {
      assert dir + rest == dir + ['"'] + rest[1..];
      SplitAfterPiece(dir, '"', rest[1..]);
    }
  }

  // ---- ranking

  /** `openssl_list`: the default first when one was found (a non-empty
      string), then the fixed list. */
  function Candidates(default: Option<string>): (c: seq<string>)
    ensures forall k :: 0 <= k < |c| ==> c[k] != ""
    ensures default.Some? && default.value != "" ==>
      |c| == |DefaultOpenSslDirs| + 1 && c[0] == default.value && c[1..] == DefaultOpenSslDirs
    ensures default.None? || default.value == "" ==> c == DefaultOpenSslDirs
  {
    if default.Some? && default.value != "" then [default.value] + DefaultOpenSslDirs
    else DefaultOpenSslDirs
  }

  /** The candidates that are existing directories, in candidate order. */
  function ExistingDirs(fs: Fs, cands: seq<string>): seq<string>
  {
    Filter(cands, IsDirIn(fs))
  }

  /** `os.path.isdir` on `fs`, as a function value. */
  function IsDirIn(fs: Fs): string -> bool {
    (d: string) => IsDir(fs, d)
  }

  /** The score a candidate directory earns: 1 for being the system
      default, 4 for holding `cert.pem`, 2 for holding `certs/`. */
  function Score(fs: Fs, default: Option<string>, dir: string): (s: int)
    ensures 0 <= s <= 7
  {
    (if default == Some(dir) then 1 else 0)
    + (if IsFile(fs, PathJoin(dir, "cert.pem")) then 4 else 0)
    + (if IsDir(fs, PathJoin(dir, "certs")) then 2 else 0)
  }

  /** Each signal can be read back from the score: the base point is its
      odd part, `cert.pem` its 4s and `certs/` its 2s. */
  lemma ScoreSignals(fs: Fs, default: Option<string>, dir: string)
    ensures Score(fs, default, dir) % 2 == 1 <==> default == Some(dir)
    ensures Score(fs, default, dir) >= 4 <==> IsFile(fs, PathJoin(dir, "cert.pem"))
    ensures (Score(fs, default, dir) / 2) % 2 == 1 <==> IsDir(fs, PathJoin(dir, "certs"))
  {
  }

  /** A Python dict from directories to scores: its keys in insertion
      order, and the value of each key. */
  datatype Dict = Dict(keys: seq<string>, values: map<string, int>)

  /** Each key is listed once, and the listed keys are exactly the keys of
      the value map. */
  type Ranking = d: Dict | NoDups(d.keys) && forall k :: k in d.keys <==> k in d.values
    witness Dict([], map[])

  /** `r[k]` */
  function Get(r: Ranking, k: string): int
    requires k in r.keys
  {
    r.values[k]
  }

  /** `r[k] = v`: an existing key keeps its place, a new key goes last; the
      other keys keep their values. */
  function Put(r: Ranking, k: string, v: int): (r': Ranking)
    ensures k in r.keys ==> r'.keys == r.keys
    ensures k !in r.keys ==> r'.keys == r.keys + [k]
    ensures NoDups(r'.keys)
    ensures k in r'.keys && Get(r', k) == v
    ensures forall j :: j in r.keys && j != k ==> j in r'.keys && Get(r', j) == Get(r, j)
  {
    Dict(if k in r.keys then r.keys else r.keys + [k], r.values[k := v])
  }

  /** `list(r.items())`: one (key, value) pair per key, in insertion
      order. */
  function Items(r: Ranking): (items: seq<(string, int)>)
    ensures |items| == |r.keys|
    ensures forall j :: 0 <= j < |items| ==> items[j] == (r.keys[j], Get(r, r.keys[j]))
  {
    seq(|r.keys|, j requires 0 <= j < |r.keys| => (r.keys[j], Get(r, r.keys[j])))
  }

  /** What `dict.items()` promises: a pair is listed exactly when its key is
      in the dict and its value is that key's value, and no key is listed
      twice. */
  lemma ItemsOfDict(r: Ranking)
    ensures forall k, v :: (k, v) in Items(r) <==> k in r.keys && v == Get(r, k)
    ensures forall i, j :: 0 <= i < j < |Items(r)| ==> Items(r)[i].0 != Items(r)[j].0
  {
    var items := Items(r);
    forall k, v | k in r.keys && v == Get(r, k)
      ensures (k, v) in items
    {
      assert items[FirstIndex(r.keys, k)] == (k, v);
    }
  }

  lemma ExistingDirsStep(fs: Fs, cands: seq<string>, i: nat)
    requires i < |cands|
    ensures ExistingDirs(fs, cands[..i + 1]) ==
      ExistingDirs(fs, cands[..i]) + (if IsDir(fs, cands[i]) then [cands[i]] else [])
  {
    assert cands[..i + 1] == cands[..i] + [cands[i]];
    FilterConcat(cands[..i], [cands[i]], IsDirIn(fs));
    assert [cands[i]][1..] == [];
  }

  /** `rank` has the keys `dirs`, in this order, and each holds its score. */
  ghost predicate ScoredAs(fs: Fs, default: Option<string>, dirs: seq<string>, rank: Ranking) {
    rank.keys == dirs && forall d :: d in dirs ==> Get(rank, d) == Score(fs, default, d)
  }

  /** A second write to a key overrides the first. */
  lemma PutTwice(r: Ranking, k: string, v: int, w: int)
    ensures Put(Put(r, k, v), k, w) == Put(r, k, w)
  {
    assert Put(Put(r, k, v), k, w).values == r.values[k := w];
  }

  /** The three writes of `_rank_openssl_dir` for one directory: the base
      score, then `+= 4` when `cert.pem` was found and `+= 2` when `certs/`
      was found. */
  method WriteScore(rank: Ranking, dir: string, base: int, hasCertPem: bool, hasCertsDir: bool)
    returns (rank': Ranking)
    ensures rank' == Put(rank, dir, base + (if hasCertPem then 4 else 0) + (if hasCertsDir then 2 else 0))
  {
    rank' := Put(rank, dir, base);
    ghost var score := base;
    if hasCertPem {
      PutTwice(rank, dir, score, Get(rank', dir) + 4);
      rank' := Put(rank', dir, Get(rank', dir) + 4);
      score := score + 4;
    }
    if hasCertsDir {
      PutTwice(rank, dir, score, Get(rank', dir) + 2);
      rank' := Put(rank', dir, Get(rank', dir) + 2);
      score := score + 2;
    }
  }

  /** The body of `_rank_openssl_dir`'s loop for a candidate that is a
      directory: look for `cert.pem` and `certs/` under it and write its
      score. */
  method RankDir(fs: Fs, default: Option<string>, rank: Ranking, dir: string) returns (rank': Ranking)
    ensures rank' == Put(rank, dir, Score(fs, default, dir))
  {
    var certPem := PathJoin(dir, "cert.pem");
    var certsDir := PathJoin(dir, "certs");
    rank' := WriteScore(rank, dir, if Some(dir) == default then 1 else 0,
      IsFile(fs, certPem), IsDir(fs, certsDir));
  }

  /** Writing the score of one more directory extends the scored ranking
      by that directory, unless it was already ranked. */
  lemma ScoredAsPut(fs: Fs, default: Option<string>, e: seq<string>, rank: Ranking, dir: string)
    requires ScoredAs(fs, default, Dedupe(e), rank)
    ensures ScoredAs(fs, default, Dedupe(e + [dir]), Put(rank, dir, Score(fs, default, dir)))
  {
    DedupeSnoc(e, dir);
  }

  /** The loop of `_rank_openssl_dir` over a candidate list: the candidates
      that are directories, each once at the place it was first met, each
      with its score. */
  method RankDirs(fs: Fs, default: Option<string>, cands: seq<string>) returns (rank: Ranking)
    ensures ScoredAs(fs, default, Dedupe(ExistingDirs(fs, cands)), rank)
  {
    rank := Dict([], map[]);
    for i := 0 to |cands|
      invariant ScoredAs(fs, default, Dedupe(ExistingDirs(fs, cands[..i])), rank)
    {
      var dir := cands[i];
      ghost var e := ExistingDirs(fs, cands[..i]);
      if IsDir(fs, dir) {
        ghost var before := rank;
        rank := RankDir(fs, default, rank, dir);
        assert ScoredAs(fs, default, Dedupe(e + [dir]), rank) by {
          ScoredAsPut(fs, default, e, before, dir);
        }
        assert ExistingDirs(fs, cands[..i + 1]) == e + [dir] by {
          ExistingDirsStep(fs, cands, i);
        }
      } else {
        assert ExistingDirs(fs, cands[..i + 1]) == e by {
          ExistingDirsStep(fs, cands, i);
          assert e + [] == e;
        }
      }
    }
    assert cands[..|cands|] == cands;
  }

  /** `_rank_openssl_dir`: ranks the reported default and the conventional
      locations. */
  method RankOpenSslDirs(fs: Fs, default: Option<string>) returns (rank: Ranking)
    ensures ScoredAs(fs, default, Dedupe(ExistingDirs(fs, Candidates(default))), rank)
  {
    var opensslList := Candidates(default);
    rank := RankDirs(fs, default, opensslList);
  }

  // ---- choosing

  /** The result of `_analyze_ranks`: the chosen directory and the cert-file
      and cert-dir flags (1 or 0). */
  datatype Advice = Advice(dir: Option<string>, certPem: int, certDir: int)

  /** `max(openssl_rank.values())`, over the items. */
  function MaxValue(r: seq<(string, int)>): (m: int)
    requires r != []
    ensures forall j :: 0 <= j < |r| ==> r[j].1 <= m
    ensures exists j :: 0 <= j < |r| && r[j].1 == m
  {
    if |r| == 1 then r[0].1
    else
      var m := MaxValue(r[1..]);
      assert forall j :: 1 <= j < |r| ==> r[j] == r[1..][j - 1];
      if r[0].1 >= m then r[0].1 else m
  }

  /** `[k for k, v in openssl_rank.items() if v == m]`: the keys holding
      `m`, in order; the first of them belongs to the first such item. */
  function MaxKeys(r: seq<(string, int)>, m: int): (ks: seq<string>)
    ensures forall k :: k in ks <==> exists j :: 0 <= j < |r| && r[j].0 == k && r[j].1 == m
    ensures ks != [] <==> exists j :: 0 <= j < |r| && r[j].1 == m
    ensures ks != [] ==>
      exists j :: 0 <= j < |r| && r[j].1 == m && ks[0] == r[j].0 && forall i :: 0 <= i < j ==> r[i].1 != m
  {
    if r == [] then []
    else
      var rest := MaxKeys(r[1..], m);
      assert forall j :: 1 <= j < |r| ==> r[j] == r[1..][j - 1];
      if r[0].1 == m then [r[0].0] + rest
      else
        assert rest != [] ==>
          exists j :: 1 <= j < |r| && r[j].1 == m && rest[0] == r[j].0 && forall i :: 0 <= i < j ==> r[i].1 != m;
        rest
  }

  /** The comprehension works item by item: the keys holding `m` in `a + b`
      are those of `a` followed by those of `b`. With `MaxKeysSingle` this
      fixes the number and the order of the keys. */
  lemma {:induction false} MaxKeysConcat(a: seq<(string, int)>, b: seq<(string, int)>, m: int)
    ensures MaxKeys(a + b, m) == MaxKeys(a, m) + MaxKeys(b, m)
  {
    if a == [] {
      assert a + b == b;
    } else {
      var h := if a[0].1 == m then [a[0].0] else [];
      var x, y := MaxKeys(a[1..], m), MaxKeys(b, m);
      assert MaxKeys(a + b, m) == h + MaxKeys(a[1..] + b, m) by {
        assert (a + b)[0] == a[0] && (a + b)[1..] == a[1..] + b;
        MaxKeysCons(a + b, m);
      }
      assert MaxKeys(a[1..] + b, m) == x + y by {
        MaxKeysConcat(a[1..], b, m);
      }
      assert MaxKeys(a, m) == h + x by {
        MaxKeysCons(a, m);
      }
      AppendAssoc(h, x, y);
    }
  }

  lemma MaxKeysCons(r: seq<(string, int)>, m: int)
    requires r != []
    ensures MaxKeys(r, m) == (if r[0].1 == m then [r[0].0] else []) + MaxKeys(r[1..], m)
  {
  }

  /** A single item contributes its key exactly when it holds `m`. */
  lemma MaxKeysSingle(k: string, v: int, m: int)
    ensures MaxKeys([(k, v)], m) == if v == m then [k] else []
  {
    assert [(k, v)][1..] == [];
  }

  /** Item `i` holds the highest score, and no earlier item does. */
  predicate FirstBest(r: seq<(string, int)>, i: int) {
    0 <= i < |r| &&
    (forall j :: 0 <= j < |r| ==> r[j].1 <= r[i].1) &&
    (forall j :: 0 <= j < i ==> r[j].1 < r[i].1)
  }

  /** The first key holding the maximum belongs to the first best item. */
  lemma FirstMaxKey(items: seq<(string, int)>)
    requires items != []
    ensures MaxKeys(items, MaxValue(items)) != []
    ensures exists i ::
      FirstBest(items, i) && MaxKeys(items, MaxValue(items))[0] == items[i].0 && items[i].1 == MaxValue(items)
  {
    var m := MaxValue(items);
    var j :| 0 <= j < |items| && items[j].1 == m && MaxKeys(items, m)[0] == items[j].0 &&
      forall i :: 0 <= i < j ==> items[i].1 != m;
    assert FirstBest(items, j);
  }

  /** `_analyze_ranks`: nothing ranked gives no directory and no flags;
      otherwise the first item with the highest score is chosen and its
      score sets the flags by thresholds (6 and up: both; 4 and 5: cert
      file; 2 and 3: cert dir; below: neither). */
  function AnalyzeRanks(r: Ranking): (a: Advice)
    ensures r.keys == [] ==> a == Advice(None, 0, 0)
    ensures r.keys != [] ==>
      exists i :: FirstBest(Items(r), i) && a.dir == Some(Items(r)[i].0) &&
        a.certPem == (if Items(r)[i].1 >= 4 then 1 else 0) &&
        a.certDir == (if Items(r)[i].1 >= 6 || 2 <= Items(r)[i].1 < 4 then 1 else 0)
  {
    if r.keys != [] then
      var items := Items(r);
      var maxValue := MaxValue(items);
      var maxKeys := MaxKeys(items, maxValue);
      FirstMaxKey(items);
      if maxValue >= 6 then Advice(Some(maxKeys[0]), 1, 1)
      else if maxValue >= 4 then Advice(Some(maxKeys[0]), 1, 0)
      else if maxValue >= 2 then Advice(Some(maxKeys[0]), 0, 1)
      else Advice(Some(maxKeys[0]), 0, 0)
    else
      Advice(None, 0, 0)
  }

  /** On scores built by the ranker the threshold bands recover the chosen
      directory's own `cert.pem` and `certs/` presence. */
  lemma FlagsMatchChosenDir(fs: Fs, default: Option<string>, r: Ranking)
    requires forall k :: k in r.keys ==> Get(r, k) == Score(fs, default, k)
    ensures AnalyzeRanks(r).dir.Some? ==>
      AnalyzeRanks(r).certPem == (if IsFile(fs, PathJoin(AnalyzeRanks(r).dir.value, "cert.pem")) then 1 else 0) &&
      AnalyzeRanks(r).certDir == (if IsDir(fs, PathJoin(AnalyzeRanks(r).dir.value, "certs")) then 1 else 0)
  {
    if r.keys != [] {
      var a := AnalyzeRanks(r);
      var i :| FirstBest(Items(r), i) && a.dir == Some(Items(r)[i].0) &&
        a.certPem == (if Items(r)[i].1 >= 4 then 1 else 0) &&
        a.certDir == (if Items(r)[i].1 >= 6 || 2 <= Items(r)[i].1 < 4 then 1 else 0);
      var d := r.keys[i];
      var s := Score(fs, default, d);
      ScoreSignals(fs, default, d);
      assert Get(r, d) == s;
      assert (s >= 6 || 2 <= s < 4) <==> (s / 2) % 2 == 1;
    }
  }

  // ---- the report text

  /** The string part of `_get_openssl_text`. */
  function OpenSslText(a: Advice): (t: (string, string, string))
    ensures t.0 == NotFoundMessage <==> a.dir.None? || a.dir.value == ""
    ensures t.1 != "" <==> a.dir.Some? && a.dir.value != "" && a.certPem != 0
    ensures t.2 != "" <==> a.dir.Some? && a.dir.value != "" && a.certDir != 0
  {
    if a.dir.Some? && a.dir.value != "" then
      var dir := a.dir.value;
      var openSsl := "export OPENSSLDIR=" + dir;
      assert openSsl != NotFoundMessage by {
        assert openSsl[0] == 'e' && NotFoundMessage[0] == 'O';
      }
      (openSsl,
       if a.certPem != 0 then "export SSL_CERT_FILE=" + PathJoin(dir, "cert.pem") else "",
       if a.certDir != 0 then "export SSL_CERT_DIR=" + PathJoin(dir, "certs") else "")
    else
      (NotFoundMessage, "", "")
  }

  /** `d` is an existing candidate with the highest score, and every
      existing candidate met before it scores strictly less. */
  ghost predicate BestCandidate(fs: Fs, default: Option<string>, cands: seq<string>, d: string) {
    d in cands && IsDir(fs, d) &&
    (forall c :: c in cands && IsDir(fs, c) ==> Score(fs, default, c) <= Score(fs, default, d)) &&
    (forall k :: 0 <= k < FirstIndex(cands, d) && IsDir(fs, cands[k]) ==>
      Score(fs, default, cands[k]) < Score(fs, default, d))
  }

  /** The three report lines for a chosen directory. */
  function Report(fs: Fs, d: string): (string, string, string) {
    ("export OPENSSLDIR=" + d,
     if IsFile(fs, PathJoin(d, "cert.pem")) then "export SSL_CERT_FILE=" + PathJoin(d, "cert.pem") else "",
     if IsDir(fs, PathJoin(d, "certs")) then "export SSL_CERT_DIR=" + PathJoin(d, "certs") else "")
  }

  /** What `RankOpenSslDirs` promises about its result, for the candidate
      list `cands`. */
  ghost predicate RankedFrom(fs: Fs, default: Option<string>, cands: seq<string>, rank: Ranking) {
    ScoredAs(fs, default, Dedupe(ExistingDirs(fs, cands)), rank)
  }

  /** The ranking is empty exactly when no candidate is a directory. */
  lemma NothingRankedIffNoDir(fs: Fs, default: Option<string>, cands: seq<string>, rank: Ranking)
    requires RankedFrom(fs, default, cands, rank)
    ensures rank.keys == [] <==> forall c :: c in cands ==> !IsDir(fs, c)
  {
    var e := ExistingDirs(fs, cands);
    FilterMembers(cands, IsDirIn(fs));
    DedupeElements(e);
    if rank.keys == [] {
      forall c | c in cands
        ensures !IsDir(fs, c)
      {
        assert c !in Dedupe(e);
      }
    } else {
      assert rank.keys[0] in Dedupe(e);
    }
  }

  /** Every existing candidate is ranked with its score. */
  lemma RankedAt(fs: Fs, default: Option<string>, cands: seq<string>, rank: Ranking, c: string)
    requires RankedFrom(fs, default, cands, rank)
    requires c in cands && IsDir(fs, c)
    ensures c in rank.keys && Get(rank, c) == Score(fs, default, c)
  {
    FilterMembers(cands, IsDirIn(fs));
    DedupeMember(ExistingDirs(fs, cands), c);
  }

  /** The chosen item is an existing candidate with the highest score. */
  lemma ChosenIsMax(fs: Fs, default: Option<string>, cands: seq<string>, rank: Ranking, i: int)
    requires RankedFrom(fs, default, cands, rank) && FirstBest(Items(rank), i)
    ensures rank.keys[i] in cands && IsDir(fs, rank.keys[i])
    ensures forall c :: c in cands && IsDir(fs, c) ==>
      Score(fs, default, c) <= Score(fs, default, rank.keys[i])
  {
    var d := rank.keys[i];
    FilterMembers(cands, IsDirIn(fs));
    DedupeMember(ExistingDirs(fs, cands), d);
    forall c | c in cands && IsDir(fs, c)
      ensures Score(fs, default, c) <= Score(fs, default, d)
    {
      RankedAt(fs, default, cands, rank, c);
      var j := FirstIndex(rank.keys, c);
      assert Items(rank)[j].1 <= Items(rank)[i].1;
    }
  }

  /** An existing candidate met before the chosen one scores strictly less. */
  lemma ChosenIsFirst(fs: Fs, default: Option<string>, cands: seq<string>, rank: Ranking, i: int, k: nat)
    requires RankedFrom(fs, default, cands, rank) && FirstBest(Items(rank), i)
    requires rank.keys[i] in cands
    requires k < FirstIndex(cands, rank.keys[i]) && IsDir(fs, cands[k])
    ensures Score(fs, default, cands[k]) < Score(fs, default, rank.keys[i])
  {
    var e := ExistingDirs(fs, cands);
    var dd := Dedupe(e);
    var c, d := cands[k], rank.keys[i];
    assert FirstIndex(cands, c) <= k;
    FilterMembers(cands, IsDirIn(fs));
    DedupeMember(e, c);
    DedupeMember(e, d);
    assert IsDirIn(fs)(c) && IsDirIn(fs)(d);
    var j := FirstIndex(dd, c);
    FilterKeepsOrder(cands, IsDirIn(fs), c, d);
    if j > i {
      DedupeOrderAt(e, i, j);
      assert false;
    }
    assert j != i;
    assert Items(rank)[j].1 < Items(rank)[i].1;
  }

  /** Over a ranking built by `RankOpenSslDirs`, the analysis finds nothing
      exactly when no candidate is a directory, and otherwise chooses the
      best candidate, ties going to the one met first. */
  lemma ChosenIsBest(fs: Fs, default: Option<string>, cands: seq<string>, rank: Ranking)
    requires RankedFrom(fs, default, cands, rank)
    ensures AnalyzeRanks(rank).dir.None? <==> forall c :: c in cands ==> !IsDir(fs, c)
    ensures AnalyzeRanks(rank).dir.Some? ==> BestCandidate(fs, default, cands, AnalyzeRanks(rank).dir.value)
  {
    NothingRankedIffNoDir(fs, default, cands, rank);
    if rank.keys != [] {
      var a := AnalyzeRanks(rank);
      var i :| FirstBest(Items(rank), i) && a.dir == Some(Items(rank)[i].0);
      var d := rank.keys[i];
      assert a.dir.value == d;
      ChosenIsMax(fs, default, cands, rank, i);
      forall k | 0 <= k < FirstIndex(cands, d) && IsDir(fs, cands[k])
        ensures Score(fs, default, cands[k]) < Score(fs, default, d)
      {
        ChosenIsFirst(fs, default, cands, rank, i, k);
      }
      assert BestCandidate(fs, default, cands, d);
    }
  }

  /** On a ranking of non-empty candidates, the text for the chosen
      directory is that directory's report. */
  lemma ChosenReport(fs: Fs, default: Option<string>, cands: seq<string>, rank: Ranking)
    requires RankedFrom(fs, default, cands, rank)
    requires forall k :: 0 <= k < |cands| ==> cands[k] != ""
    ensures AnalyzeRanks(rank).dir.Some? ==>
      AnalyzeRanks(rank).dir.value != "" &&
      OpenSslText(AnalyzeRanks(rank)) == Report(fs, AnalyzeRanks(rank).dir.value)
  {
    var a := AnalyzeRanks(rank);
    if a.dir.Some? {
      ChosenIsBest(fs, default, cands, rank);
      assert a.dir.value in cands;
      FlagsMatchChosenDir(fs, default, rank);
    }
  }

  /** The body of `_get_openssl_text` once the default directory is known:
      the not-found message when no candidate is a directory, otherwise the
      lines for the best candidate. */
  method OpenSslGuidance(fs: Fs, default: Option<string>) returns (text: (string, string, string))
    ensures (forall c :: c in Candidates(default) ==> !IsDir(fs, c)) <==> text == (NotFoundMessage, "", "")
    ensures text != (NotFoundMessage, "", "") ==>
      exists d :: BestCandidate(fs, default, Candidates(default), d) && text == Report(fs, d)
  {
    var rank := RankOpenSslDirs(fs, default);
    var advice := AnalyzeRanks(rank);
    text := OpenSslText(advice);
    ChosenIsBest(fs, default, Candidates(default), rank);
    if advice.dir.Some? {
      var d := advice.dir.value;
      assert d != "" && text == Report(fs, d) by {
        ChosenReport(fs, default, Candidates(default), rank);
      }
      assert text.0 != NotFoundMessage;
    } else {
      assert text == (NotFoundMessage, "", "");
    }
  }

  /** `_get_openssl_text` as a whole: the tool's output gives the default
      directory, whose parse error propagates; then the guidance lines. */
  method GetOpenSslText(fs: Fs, toolOutput: Option<string>)
    returns (r: Result<(string, string, string), string>)
    ensures r.Failure? <==> DefaultOpenSslDir(toolOutput).Failure?
    ensures r.Success? ==>
      var default := DefaultOpenSslDir(toolOutput).value;
      ((forall c :: c in Candidates(default) ==> !IsDir(fs, c)) <==> r.value == (NotFoundMessage, "", "")) &&
      (r.value != (NotFoundMessage, "", "") ==>
        exists d :: BestCandidate(fs, default, Candidates(default), d) && r.value == Report(fs, d))
  {
    var found := DefaultOpenSslDir(toolOutput);
    if found.Failure? {
      return Failure(found.error);
    }
    var text := OpenSslGuidance(fs, found.value);
    r := Success(text);
  }
}
