/**
 * The `sbatch` command line `submit_job` builds. Option keys get a dash prefix, keyword
 * arguments override the other arguments, environment variables become an
 * `--export ALL,...` segment, and the whole command is whitespace-normalised.
 */
module Submitter {
  import opened Wrappers
  import opened PyStr

  /** A Python dict from strings to strings, in insertion order. */
  type Dict = seq<(string, string)>

  /** No key occurs twice, as in every Python dict. */
  predicate DistinctKeys(d: Dict) {
    forall i, j :: 0 <= i < j < |d| ==> d[i].0 != d[j].0
  }

  /** `d.get(k)`. */
  function Lookup(d: Dict, k: string): Option<string>
    decreases |d|
  {
    if d == [] then None else if d[0].0 == k then Some(d[0].1) else Lookup(d[1..], k)
  }

  /** A key that is not in `d` is not found. */
  lemma {:induction false} LookupAbsent(d: Dict, k: string)
    requires forall i :: 0 <= i < |d| ==> d[i].0 != k
    ensures Lookup(d, k) == None
    decreases |d|
  {
    if d != [] {
      LookupAbsent(d[1..], k);
    }
  }

  // ---------------------------------------------------------------------------------
  // `add_underscore_to_keys`
  // ---------------------------------------------------------------------------------

  /** The dash prefix of an option key: `--` for keys longer than two characters, `-` otherwise. */
  function PrefixKey(k: string): string {
    if |k| > 2 then "--" + k else "-" + k
  }

  /** Different keys get different prefixed keys, so the comprehension merges no entries. */
  lemma PrefixKeyInjective(a: string, b: string)
    ensures PrefixKey(a) == PrefixKey(b) ==> a == b
  {
    if PrefixKey(a) == PrefixKey(b) {
      if |a| > 2 && |b| > 2 {
        assert a == PrefixKey(a)[2..] && b == PrefixKey(b)[2..];
      } else if |a| <= 2 && |b| <= 2 {
        assert a == PrefixKey(a)[1..] && b == PrefixKey(b)[1..];
      }
    }
  }

  /** `add_underscore_to_keys`: every key gets its dash prefix, in order, values unchanged. */
  function AddUnderscoreToKeys(d: Dict): Dict {
    seq(|d|, i requires 0 <= i < |d| => (PrefixKey(d[i].0), d[i].1))
  }

  /**
   * The prefixed dict has the entries of `d` in the same order; it maps `PrefixKey(k)` to
   * what `d` maps `k` to, and is a dict again.
   */
  lemma {:induction false} AddUnderscoreFacts(d: Dict, k: string)
    ensures var r := AddUnderscoreToKeys(d);
      && |r| == |d|
      && (forall i :: 0 <= i < |d| ==> r[i] == (PrefixKey(d[i].0), d[i].1))
      && Lookup(r, PrefixKey(k)) == Lookup(d, k)
      && (DistinctKeys(d) ==> DistinctKeys(r))
    decreases |d|
  {
    var r := AddUnderscoreToKeys(d);
    if d != [] {
      AddUnderscoreFacts(d[1..], k);
      assert r[1..] == AddUnderscoreToKeys(d[1..]);
      PrefixKeyInjective(d[0].0, k);
    }
    forall i, j | 0 <= i < j < |d| && DistinctKeys(d) ensures r[i].0 != r[j].0 {
      PrefixKeyInjective(d[i].0, d[j].0);
    }
  }

  // ---------------------------------------------------------------------------------
  // `dict.update`
  // ---------------------------------------------------------------------------------

  /** `d[k] = v`: an existing key keeps its position, a new one goes last. */
  function Put(d: Dict, k: string, v: string): Dict
    decreases |d|
  {
    if d == [] then [(k, v)]
    else if d[0].0 == k then [(k, v)] + d[1..]
    else [d[0]] + Put(d[1..], k, v)
  }

  /** `d[k] = v` maps `k` to `v`, keeps every other key's value and every existing key's position. */
  lemma PutFacts(d: Dict, k: string, v: string)
    ensures var r := Put(d, k, v);
      && |d| <= |r| <= |d| + 1
      && (forall i :: 0 <= i < |d| ==> r[i].0 == d[i].0)
      && (forall i :: |d| <= i < |r| ==> r[i] == (k, v))
      && Lookup(r, k) == Some(v)
      && (forall k' :: k' != k ==> Lookup(r, k') == Lookup(d, k'))
      && (DistinctKeys(d) ==> DistinctKeys(r))
  {
    PutShape(d, k, v);
    PutLookup(d, k, v);
    if DistinctKeys(d) {
      PutDistinct(d, k, v);
    }
  }

  /** The keys of `d` keep their positions, and a new key goes last. */
  lemma {:induction false} PutShape(d: Dict, k: string, v: string)
    ensures var r := Put(d, k, v);
      && |d| <= |r| <= |d| + 1
      && (forall i :: 0 <= i < |d| ==> r[i].0 == d[i].0)
      && (forall i :: |d| <= i < |r| ==> r[i] == (k, v))
    decreases |d|
  {
    if d != [] && d[0].0 != k {
      PutShape(d[1..], k, v);
    }
  }

  /** `k` maps to `v` afterwards, and every other key to what it mapped to before. */
  lemma {:induction false} PutLookup(d: Dict, k: string, v: string)
    ensures Lookup(Put(d, k, v), k) == Some(v)
    ensures forall k' :: k' != k ==> Lookup(Put(d, k, v), k') == Lookup(d, k')
    decreases |d|
  {
    if d != [] && d[0].0 != k {
      PutLookup(d[1..], k, v);
      assert Put(d, k, v)[1..] == Put(d[1..], k, v);
    }
  }

  /** Setting a key keeps the keys distinct. */
  lemma {:induction false} PutDistinct(d: Dict, k: string, v: string)
    requires DistinctKeys(d)
    ensures DistinctKeys(Put(d, k, v))
    decreases |d|
  {
    var r := Put(d, k, v);
    if d != [] && d[0].0 != k {
      PutDistinct(d[1..], k, v);
      PutShape(d[1..], k, v);
      assert r[1..] == Put(d[1..], k, v);
      forall i | 0 <= i < |r| - 1 ensures r[0].0 != r[1..][i].0 {
        if i < |d[1..]| {
          assert r[1..][i].0 == d[1..][i].0 == d[i + 1].0;
        }
      }
    }
  }

  /** `d.update(e)`: the entries of `e`, in order, each set in `d`. */
  function Update(d: Dict, e: Dict): Dict
    decreases |e|
  {
    if e == [] then d else Update(Put(d, e[0].0, e[0].1), e[1..])
  }

  /**
   * After `d.update(e)`, a key of `e` has its value from `e` and any other key its value
   * from `d`; the keys of `d` keep their positions.
   */
  lemma {:induction false} UpdateFacts(d: Dict, e: Dict)
    requires DistinctKeys(e)
    ensures var r := Update(d, e);
      && |r| >= |d|
      && (forall i :: 0 <= i < |d| ==> r[i].0 == d[i].0)
      && (forall k :: Lookup(r, k) == if Lookup(e, k).Some? then Lookup(e, k) else Lookup(d, k))
      && (DistinctKeys(d) ==> DistinctKeys(r))
    decreases |e|
  {
    if e != [] {
      var d' := Put(d, e[0].0, e[0].1);
      PutFacts(d, e[0].0, e[0].1);
      UpdateFacts(d', e[1..]);
      forall k ensures Lookup(Update(d, e), k) == if Lookup(e, k).Some? then Lookup(e, k) else Lookup(d, k) {
        if k == e[0].0 {
          LookupAbsent(e[1..], k);
        }
      }
    }
  }

  // ---------------------------------------------------------------------------------
  // `submit_job`
  // ---------------------------------------------------------------------------------

  /** `other_args` prefixed, updated with the prefixed `kwargs`. */
  function Merged(otherArgs: Option<Dict>, kwargs: Dict): Dict {
    Update(if otherArgs.None? then [] else AddUnderscoreToKeys(otherArgs.value), AddUnderscoreToKeys(kwargs))
  }

  /**
   * A keyword argument overrides the other argument with the same key, the other arguments
   * keep their order ahead of new keys, and no key appears twice.
   */
  lemma MergedFacts(otherArgs: Option<Dict>, kwargs: Dict, k: string)
    requires DistinctKeys(kwargs) && (otherArgs.Some? ==> DistinctKeys(otherArgs.value))
    ensures var r := Merged(otherArgs, kwargs);
      && Lookup(r, PrefixKey(k)) == (if Lookup(kwargs, k).Some? then Lookup(kwargs, k)
                                     else if otherArgs.Some? then Lookup(otherArgs.value, k) else None)
      && (otherArgs.Some? ==>
            (|r| >= |otherArgs.value| && forall i :: 0 <= i < |otherArgs.value| ==> r[i].0 == PrefixKey(otherArgs.value[i].0)))
      && DistinctKeys(r)
  {
    var base := if otherArgs.None? then [] else AddUnderscoreToKeys(otherArgs.value);
    AddUnderscoreFacts(kwargs, k);
    AddUnderscoreFacts(if otherArgs.None? then [] else otherArgs.value, k);
    UpdateFacts(base, AddUnderscoreToKeys(kwargs));
  }

  /** `[f"{k}={v}" for k, v in d.items()]`. */
  function KeyValues(d: Dict): seq<string> {
    seq(|d|, i requires 0 <= i < |d| => d[i].0 + "=" + d[i].1)
  }

  /** The `--export ALL,k=v,... ` segment, present only for a non-empty `env_vars`. */
  function ExportSegment(envVars: Option<Dict>): string {
    if envVars.Some? && |envVars.value| > 0 then "--export ALL," + Join(KeyValues(envVars.value), ",") + " " else ""
  }

  /** The `k=v k=v ... ` segment of the options, present only when there are some. */
  function OptionsSegment(d: Dict): string {
    if |d| > 0 then Join(KeyValues(d), " ") + " " else ""
  }

  /** `args`: the export segment followed by the options segment. */
  function Args(envVars: Option<Dict>, otherArgs: Option<Dict>, kwargs: Dict): string {
    ExportSegment(envVars) + OptionsSegment(Merged(otherArgs, kwargs))
  }

  /** The command `submit_job` hands to the shell. */
  function SubmitCommand(jobPath: string, envVars: Option<Dict>, otherArgs: Option<Dict>, kwargs: Dict): string {
    Normalize("sbatch " + Args(envVars, otherArgs, kwargs) + " " + jobPath)
  }

  /** A string without whitespace is one word, or none if empty. */
  lemma WordsOfWord(w: string)
    requires forall i :: 0 <= i < |w| ==> !IsSpace(w[i])
    ensures Words(w) == if w == [] then [] else [w]
  {
    if w != [] {
      SplitRunsWord(w, [], IsSpace);
      assert w + [] == w;
    }
  }

  /** A segment that ends in a space contributes its words, and only them, before what follows. */
  lemma WordsOfSegment(seg: string, rest: string)
    requires seg == [] || seg[|seg| - 1] == ' '
    ensures Words(seg + rest) == Words(seg) + Words(rest)
  {
    if seg != [] {
      var body := seg[..|seg| - 1];
      assert seg == body + [seg[|seg| - 1]] == body + " ";
      assert seg + rest == body + " " + rest;
      WordsAtSpace(body, rest);
      WordsAtSpace(body, []);
      assert body + " " + [] == seg;
      assert Words([]) == [];
    } else {
      assert seg + rest == rest;
    }
  }

  /** A leading word followed by a space contributes exactly itself. */
  lemma LeadingWord(w: string, rest: string)
    requires w != [] && forall i :: 0 <= i < |w| ==> !IsSpace(w[i])
    ensures Words(w + " " + rest) == [w] + Words(rest)
  {
    WordsAtSpace(w, rest);
    WordsOfWord(w);
  }

  /** Normalising `sbatch <args> <j>` keeps `sbatch`, then the words of `args`, then those of `j`. */
  lemma RawCommandWords(args: string, j: string)
    ensures Words(Normalize("sbatch " + args + " " + j)) == ["sbatch"] + Words(args) + Words(j)
  {
    var raw := "sbatch " + args + " " + j;
    assert raw == "sbatch" + " " + (args + " " + j);
    LeadingWord("sbatch", args + " " + j);
    WordsAtSpace(args, j);
    NormalizeKeepsWords(raw);
  }

  /** The words of `args` are those of the export segment, then those of the options. */
  lemma ArgsWords(envVars: Option<Dict>, otherArgs: Option<Dict>, kwargs: Dict)
    ensures Words(Args(envVars, otherArgs, kwargs))
      == Words(ExportSegment(envVars)) + Words(OptionsSegment(Merged(otherArgs, kwargs)))
  {
    WordsOfSegment(ExportSegment(envVars), OptionsSegment(Merged(otherArgs, kwargs)));
  }

  /**
   * The command is `sbatch`, then the words of `args`, then `job_path`, word for word; by
   * ArgsWords the words of `args` are the export segment's and then the options'.
   */
  lemma CommandWords(jobPath: string, envVars: Option<Dict>, otherArgs: Option<Dict>, kwargs: Dict)
    ensures Words(SubmitCommand(jobPath, envVars, otherArgs, kwargs))
      == ["sbatch"] + Words(Args(envVars, otherArgs, kwargs)) + Words(jobPath)
  {
    RawCommandWords(Args(envVars, otherArgs, kwargs), jobPath);
  }

  /** A join starts with its first piece. */
  lemma JoinStartsWithFirst(ws: seq<string>, sep: string)
    requires ws != []
    ensures IsPrefix(ws[0], Join(ws, sep))
  {
    if |ws| >= 2 {
      assert Join(ws, sep) == ws[0] + (sep + Join(ws[1..], sep));
    }
  }

  /** The command starts with `sbatch`, has no leading, trailing or doubled spaces, and is its own normal form. */
  lemma CommandNormalized(jobPath: string, envVars: Option<Dict>, otherArgs: Option<Dict>, kwargs: Dict)
    ensures var cmd := SubmitCommand(jobPath, envVars, otherArgs, kwargs);
      IsPrefix("sbatch", cmd) && IsNormalized(cmd) && Normalize(cmd) == cmd
  {
    var raw := "sbatch " + Args(envVars, otherArgs, kwargs) + " " + jobPath;
    RawCommandWords(Args(envVars, otherArgs, kwargs), jobPath);
    NormalizeKeepsWords(raw);
    NormalizeIsNormalized(raw);
    JoinStartsWithFirst(Words(raw), " ");
  }

  /** `w` holds no whitespace. */
  predicate NoSpace(w: string) {
    forall i :: 0 <= i < |w| ==> !IsSpace(w[i])
  }

  /** Every key and value of `d` is free of whitespace. */
  predicate Plain(d: Dict) {
    forall i :: 0 <= i < |d| ==> NoSpace(d[i].0) && NoSpace(d[i].1)
  }

  /** `f"{k}={v}"` of a whitespace-free key and value is one non-empty word. */
  lemma KeyValueNoSpace(k: string, v: string)
    requires NoSpace(k) && NoSpace(v)
    ensures k + "=" + v != [] && NoSpace(k + "=" + v)
  {
    var w := k + "=" + v;
    forall i | 0 <= i < |w| ensures !IsSpace(w[i]) {
      if i < |k| {
        assert w[i] == k[i];
      } else if i > |k| {
        assert w[i] == v[i - |k| - 1];
      }
    }
  }

  /** Each `k=v` of a plain dict is one non-empty word. */
  lemma KeyValuesNoSpace(d: Dict)
    requires Plain(d)
    ensures forall w :: w in KeyValues(d) ==> w != [] && NoSpace(w)
  {
    forall j | 0 <= j < |d| ensures KeyValues(d)[j] != [] && NoSpace(KeyValues(d)[j]) {
      KeyValueNoSpace(d[j].0, d[j].1);
    }
  }

  /** Joining whitespace-free pieces with a whitespace-free separator adds no whitespace. */
  lemma {:induction false} JoinNoSpace(ws: seq<string>, sep: string)
    requires NoSpace(sep) && forall w :: w in ws ==> NoSpace(w)
    ensures NoSpace(Join(ws, sep))
    decreases |ws|
  {
    if |ws| >= 2 {
      assert ws[0] in ws && forall w :: w in ws[1..] ==> w in ws;
      JoinNoSpace(ws[1..], sep);
      var rest := Join(ws[1..], sep);
      var j := Join(ws, sep);
      assert j == ws[0] + sep + rest;
      forall i | 0 <= i < |j| ensures !IsSpace(j[i]) {
        if i < |ws[0]| {
          assert j[i] == ws[0][i];
        } else if i < |ws[0]| + |sep| {
          assert j[i] == sep[i - |ws[0]|];
        } else {
          assert j[i] == rest[i - |ws[0]| - |sep|];
        }
      }
    } else if |ws| == 1 {
      assert ws[0] in ws;
    }
  }

  /** The dash prefix adds no whitespace. */
  lemma PrefixKeyNoSpace(k: string)
    requires NoSpace(k)
    ensures NoSpace(PrefixKey(k))
  {
    var p := PrefixKey(k);
    var n := if |k| > 2 then 2 else 1;
    forall i | 0 <= i < |p| ensures !IsSpace(p[i]) {
      if i >= n {
        assert p[i] == k[i - n];
      }
    }
  }

  /** Setting a whitespace-free entry keeps a dict plain. */
  lemma {:induction false} PutPlain(d: Dict, k: string, v: string)
    requires Plain(d) && NoSpace(k) && NoSpace(v)
    ensures Plain(Put(d, k, v))
    decreases |d|
  {
    if d != [] && d[0].0 != k {
      PutPlain(d[1..], k, v);
      var r := Put(d, k, v);
      assert r == [d[0]] + Put(d[1..], k, v);
      forall i | 1 <= i < |r| ensures NoSpace(r[i].0) && NoSpace(r[i].1) {
        assert r[i] == Put(d[1..], k, v)[i - 1];
      }
    }
  }

  /** Updating a plain dict with a plain dict gives a plain dict. */
  lemma {:induction false} UpdatePlain(d: Dict, e: Dict)
    requires Plain(d) && Plain(e)
    ensures Plain(Update(d, e))
    decreases |e|
  {
    if e != [] {
      PutPlain(d, e[0].0, e[0].1);
      UpdatePlain(Put(d, e[0].0, e[0].1), e[1..]);
    }
  }

  /** The merged options of plain arguments are plain. */
  lemma MergedPlain(otherArgs: Option<Dict>, kwargs: Dict)
    requires Plain(kwargs) && (otherArgs.Some? ==> Plain(otherArgs.value))
    ensures Plain(Merged(otherArgs, kwargs))
  {
    forall i | 0 <= i < |kwargs| ensures NoSpace(AddUnderscoreToKeys(kwargs)[i].0) {
      PrefixKeyNoSpace(kwargs[i].0);
    }
    if otherArgs.Some? {
      var o := otherArgs.value;
      forall i | 0 <= i < |o| ensures NoSpace(AddUnderscoreToKeys(o)[i].0) {
        PrefixKeyNoSpace(o[i].0);
      }
    }
    UpdatePlain(if otherArgs.None? then [] else AddUnderscoreToKeys(otherArgs.value), AddUnderscoreToKeys(kwargs));
  }

  /** Two whitespace-free words, each followed by a space, split into exactly those words. */
  lemma TwoWords(a: string, b: string)
    requires a != [] && NoSpace(a) && b != [] && NoSpace(b)
    ensures Words(a + " " + (b + " ")) == [a, b]
  {
    LeadingWord(a, b + " ");
    assert b + " " == b + " " + [];
    LeadingWord(b, []);
    assert Words([]) == [];
  }

  /** Concatenating whitespace-free strings adds no whitespace. */
  lemma ConcatNoSpace(a: string, b: string)
    requires NoSpace(a) && NoSpace(b)
    ensures NoSpace(a + b)
  {
    forall i | |a| <= i < |a + b| ensures !IsSpace((a + b)[i]) {
      assert (a + b)[i] == b[i - |a|];
    }
  }

  /** The fixed pieces of the export segment hold no whitespace. */
  lemma ExportLiterals()
    ensures NoSpace("--export") && NoSpace("ALL,") && NoSpace(",")
  {
  }

  /** The words the export segment of a non-empty, whitespace-free `env_vars` holds. */
  lemma PlainExportWords(e: Dict)
    requires e != [] && Plain(e)
    ensures Words(ExportSegment(Some(e))) == ["--export", "ALL," + Join(KeyValues(e), ",")]
  {
    var kvs := KeyValues(e);
    var j := Join(kvs, ",");
    ExportLiterals();
    KeyValuesNoSpace(e);
    JoinNoSpace(kvs, ",");
    ConcatNoSpace("ALL,", j);
    var tail := "ALL," + j;
    assert ExportSegment(Some(e)) == "--export" + " " + (tail + " ");
    TwoWords("--export", tail);
  }

  /**
   * The export segment is absent for no or empty `env_vars`; otherwise it starts with the
   * word `--export`, and for whitespace-free keys and values its words are exactly
   * `--export` and `ALL,k1=v1,...,kn=vn`, in insertion order.
   */
  lemma ExportWords(envVars: Option<Dict>)
    ensures envVars.None? || envVars.value == [] ==> ExportSegment(envVars) == []
    ensures envVars.Some? && envVars.value != [] ==>
      Words(ExportSegment(envVars)) != [] && Words(ExportSegment(envVars))[0] == "--export"
    ensures envVars.Some? && envVars.value != [] && Plain(envVars.value) ==>
      Words(ExportSegment(envVars)) == ["--export", "ALL," + Join(KeyValues(envVars.value), ",")]
  {
    if envVars.Some? && envVars.value != [] {
      var tail := "ALL," + Join(KeyValues(envVars.value), ",");
      assert ExportSegment(envVars) == "--export" + " " + (tail + " ");
      LeadingWord("--export", tail + " ");
      if Plain(envVars.value) {
        PlainExportWords(envVars.value);
      }
    }
  }

  lemma Regroup(a: seq<string>, b: seq<string>, c: seq<string>, d: seq<string>)
    ensures a + (b + c) + d == a + b + c + d
  {
  }

  /** The words `--export ALL,k1=v1,...,kn=vn` for a non-empty `env_vars`, and none otherwise. */
  function ExportWordList(envVars: Option<Dict>): seq<string> {
    if envVars.Some? && envVars.value != [] then ["--export", "ALL," + Join(KeyValues(envVars.value), ",")] else []
  }

  /** For whitespace-free `env_vars`, the export segment holds exactly its word list. */
  lemma ExportSegmentWords(envVars: Option<Dict>)
    requires envVars.Some? ==> Plain(envVars.value)
    ensures Words(ExportSegment(envVars)) == ExportWordList(envVars)
  {
    if envVars.Some? && envVars.value != [] {
      PlainExportWords(envVars.value);
    } else {
      assert ExportSegment(envVars) == [];
      assert Words([]) == [];
    }
  }

  /**
   * For whitespace-free arguments the whole command, word for word, is `sbatch`, the export
   * words, each merged option as `k=v` in merged order, then the words of `job_path`.
   */
  lemma CommandWordList(jobPath: string, envVars: Option<Dict>, otherArgs: Option<Dict>, kwargs: Dict)
    requires envVars.Some? ==> Plain(envVars.value)
    requires otherArgs.Some? ==> Plain(otherArgs.value)
    requires Plain(kwargs)
    ensures Words(SubmitCommand(jobPath, envVars, otherArgs, kwargs))
      == ["sbatch"] + ExportWordList(envVars) + KeyValues(Merged(otherArgs, kwargs)) + Words(jobPath)
  {
    var exportWords, optionWords := ExportWordList(envVars), KeyValues(Merged(otherArgs, kwargs));
    ExportSegmentWords(envVars);
    MergedPlain(otherArgs, kwargs);
    OptionWords(Merged(otherArgs, kwargs));
    ArgsWords(envVars, otherArgs, kwargs);
    CommandWords(jobPath, envVars, otherArgs, kwargs);
    Regroup(["sbatch"], exportWords, optionWords, Words(jobPath));
  }

  /** With keys and values free of whitespace, the option words are exactly `k=v`, in merged order. */
  lemma OptionWords(d: Dict)
    requires Plain(d)
    ensures Words(OptionsSegment(d)) == KeyValues(d)
  {
    var kvs := KeyValues(d);
    KeyValuesNoSpace(d);
    SplitJoinRoundTrip(kvs, " ", IsSpace);
    if |d| > 0 {
      WordsOfSegment(OptionsSegment(d), []);
      WordsOfWord([]);
      assert OptionsSegment(d) + [] == OptionsSegment(d);
      WordsAtSpace(Join(kvs, " "), []);
      assert OptionsSegment(d) == Join(kvs, " ") + " " + [];
    }
  }
}
