/**
 * Token substitution over one line of the catalog bootstrap (BKI) template,
 * as the in-process bootstrapper performs it before handing the script to
 * the engine's bootstrap interpreter.
 *
 * `Subst` is the meaning of the scan; `SubstituteLine` is the scan itself
 * (an input index and a separate output buffer) proved equal to it.
 */
module Bki {
  import opened Wrappers
  import opened CStrings

  /** The ten placeholders the template may contain. */
  datatype Token =
    | NameDataLen | SizeofPointer | AlignofPointer | Postgres | Encoding
    | LcCollate | LcCtype | DatLocale | IcuRules | LocaleProvider

  /** The literal text of each placeholder. */
  function Name(t: Token): string {
    match t
    case NameDataLen => "NAMEDATALEN"
    case SizeofPointer => "SIZEOF_POINTER"
    case AlignofPointer => "ALIGNOF_POINTER"
    case Postgres => "POSTGRES"
    case Encoding => "ENCODING"
    case LcCollate => "LC_COLLATE"
    case LcCtype => "LC_CTYPE"
    case DatLocale => "DATLOCALE"
    case IcuRules => "ICU_RULES"
    case LocaleProvider => "LOCALE_PROVIDER"
  }

  /**
   * What the substitution draws on: two build constants (NAMEDATALEN and the
   * pointer size), the bootstrap superuser, the numeric encoding id the
   * engine assigns to the chosen encoding name, and the locale.
   */
  datatype Env = Env(nameDataLen: int, pointerSize: int, username: string, encodingId: int, locale: string)

  /** The text each placeholder is replaced with. */
  function Value(t: Token, env: Env): string {
    match t
    case NameDataLen => FormatInt(env.nameDataLen)
    case SizeofPointer => FormatInt(env.pointerSize)
    case AlignofPointer => if env.pointerSize == 4 then "i" else "d"
    case Postgres => env.username
    case Encoding => FormatInt(env.encodingId)
    case LcCollate => env.locale
    case LcCtype => env.locale
    case DatLocale => "_null_"
    case IcuRules => "_null_"
    case LocaleProvider => "c"
  }

  /** `strncmp(s, name, strlen(name)) == 0` for the placeholder's name. */
  predicate Matches(s: string, t: Token) {
    StrNEq(s, Name(t), |Name(t)|)
  }

  /** The placeholders in the order the source's `if` chain tests them. */
  const Chain: seq<Token> := [NameDataLen, SizeofPointer, AlignofPointer, Postgres, Encoding,
                              LcCollate, LcCtype, DatLocale, IcuRules, LocaleProvider]

  /** The first placeholder of `ts` whose `strncmp` test over its own length succeeds on `s`. */
  function FirstMatch(s: string, ts: seq<Token>): Option<Token> {
    if ts == [] then None
    else if Matches(s, ts[0]) then Some(ts[0])
    else FirstMatch(s, ts[1..])
  }

  /** The placeholder the source's `if` chain settles on at the start of `s`. */
  function MatchAt(s: string): Option<Token> {
    FirstMatch(s, Chain)
  }

  /**
   * The substituted line: at each position a placeholder is replaced and
   * the scan resumes right after it; any other character is copied. The
   * output is a separate buffer, so what is emitted is never scanned again.
   */
  function Subst(s: string, env: Env): string
    decreases |s|
  {
    if s == [] then []
    else
      var step := StepAt(s, env);
      step.emit + Subst(s[step.advance..], env)
  }

  /** What one step of the scan appends to the output, and how far it moves the input index. */
  datatype Step = Step(emit: string, advance: nat)

  /**
   * One step of the scan at the start of `s`: the value of the placeholder
   * found there and its length, or else the first character and one.
   */
  function StepAt(s: string, env: Env): (r: Step)
    requires s != []
    ensures 1 <= r.advance <= |s|
  {
    match MatchAt(s)
    case Some(t) => MatchAtFits(s); Step(Value(t, env), |Name(t)|)
    case None => Step([s[0]], 1)
  }

  /** The placeholder `MatchAt` picks really begins `s`. */
  lemma MatchAtFits(s: string)
    ensures MatchAt(s).Some? ==> IsPrefix(Name(MatchAt(s).value), s)
  {
    if MatchAt(s).Some? {
      MatchAtSound(s);
      StrNEqIsPrefix(s, Name(MatchAt(s).value));
    }
  }

  /** Some placeholder begins at position `i` of `s`. */
  predicate TokenAt(s: string, i: nat)
    requires i <= |s|
  {
    exists t: Token :: IsPrefix(Name(t), s[i..])
  }

  /** `p` and `q` differ at an index both reach, so neither is a prefix of the other. */
  lemma DifferAt(p: string, q: string, k: nat)
    requires k < |p| && k < |q| && p[k] != q[k]
    ensures !IsPrefix(p, q) && !IsPrefix(q, p)
  {
  }

  /** No placeholder name is a prefix of another one. */
  lemma NamesPrefixFree(t: Token, u: Token)
    requires t != u
    ensures !IsPrefix(Name(t), Name(u))
  {
    // The first letters tell every pair apart except among the three names
    // beginning with 'L', which differ at index 1 or 4.
    if Name(t)[0] != Name(u)[0] {
      DifferAt(Name(t), Name(u), 0);
    } else if Name(t)[1] != Name(u)[1] {
      DifferAt(Name(t), Name(u), 1);
    } else {
      DifferAt(Name(t), Name(u), 4);
    }
  }

  /** Two prefixes of the same string: the shorter is a prefix of the longer. */
  lemma PrefixesNest(p: string, q: string, s: string)
    requires IsPrefix(p, s) && IsPrefix(q, s) && |p| <= |q|
    ensures IsPrefix(p, q)
  {
    assert q[..|p|] == s[..|q|][..|p|] == s[..|p|];
  }

  /** A first match is a placeholder of the list whose test succeeds. */
  lemma {:induction false} FirstMatchSound(s: string, ts: seq<Token>)
    ensures FirstMatch(s, ts).Some? ==> FirstMatch(s, ts).value in ts && Matches(s, FirstMatch(s, ts).value)
  {
    if ts != [] && !Matches(s, ts[0]) {
      FirstMatchSound(s, ts[1..]);
    }
  }

  /** No first match means every test of the list fails. */
  lemma {:induction false} FirstMatchNone(s: string, ts: seq<Token>, u: Token)
    requires u in ts
    ensures FirstMatch(s, ts).None? ==> !Matches(s, u)
  {
    if ts[0] != u {
      FirstMatchNone(s, ts[1..], u);
    }
  }

  /** The chain tests every placeholder. */
  lemma ChainComplete(u: Token)
    ensures u in Chain
  {
    match u
    case NameDataLen => assert Chain[0] == u;
    case SizeofPointer => assert Chain[1] == u;
    case AlignofPointer => assert Chain[2] == u;
    case Postgres => assert Chain[3] == u;
    case Encoding => assert Chain[4] == u;
    case LcCollate => assert Chain[5] == u;
    case LcCtype => assert Chain[6] == u;
    case DatLocale => assert Chain[7] == u;
    case IcuRules => assert Chain[8] == u;
    case LocaleProvider => assert Chain[9] == u;
  }

  /** The chain yields a placeholder only when that placeholder's test succeeds. */
  lemma MatchAtSound(s: string)
    ensures MatchAt(s).Some? ==> Matches(s, MatchAt(s).value)
  {
    FirstMatchSound(s, Chain);
  }

  /** The chain yields nothing only when every test fails. */
  lemma MatchAtNoneAll(s: string, u: Token)
    ensures MatchAt(s).None? ==> !Matches(s, u)
  {
    ChainComplete(u);
    FirstMatchNone(s, Chain, u);
  }

  /**
   * At most one placeholder begins at any position, so the order of the
   * `if` chain is immaterial: the match is the placeholder that begins `s`.
   */
  lemma MatchAtIsUnique(s: string, t: Token)
    ensures MatchAt(s) == Some(t) <==> IsPrefix(Name(t), s)
  {
    var m := MatchAt(s);
    MatchAtSound(s);
    StrNEqIsPrefix(s, Name(t));
    if m.Some? {
      var u := m.value;
      StrNEqIsPrefix(s, Name(u));
      if u != t && IsPrefix(Name(t), s) {
        if |Name(u)| <= |Name(t)| {
          PrefixesNest(Name(u), Name(t), s);
          NamesPrefixFree(u, t);
        } else {
          PrefixesNest(Name(t), Name(u), s);
          NamesPrefixFree(t, u);
        }
      }
    } else {
      MatchAtNoneAll(s, t);
    }
  }

  /** No match means no placeholder begins `s`. */
  lemma MatchAtNone(s: string)
    ensures MatchAt(s) == None <==> !TokenAt(s, 0)
  {
    assert s[0..] == s;
    if MatchAt(s).Some? {
      MatchAtIsUnique(s, MatchAt(s).value);
    } else if TokenAt(s, 0) {
      var t: Token :| IsPrefix(Name(t), s[0..]);
      MatchAtIsUnique(s, t);
    }
  }

  /** Where a placeholder begins, its value is emitted and the scan resumes right after it. */
  lemma SubstAtToken(s: string, t: Token, env: Env)
    requires IsPrefix(Name(t), s)
    ensures Subst(s, env) == Value(t, env) + Subst(s[|Name(t)|..], env)
  {
    MatchAtIsUnique(s, t);
  }

  /** Where no placeholder begins, the character is copied and the scan moves on by one. */
  lemma SubstAtOther(s: string, env: Env)
    requires s != [] && !TokenAt(s, 0)
    ensures Subst(s, env) == [s[0]] + Subst(s[1..], env)
  {
    MatchAtNone(s);
  }

  /** A line in which no placeholder occurs is copied unchanged. */
  lemma {:induction false} SubstNoTokens(s: string, env: Env)
    requires forall i :: 0 <= i <= |s| ==> !TokenAt(s, i)
    ensures Subst(s, env) == s
    decreases |s|
  {
    if s != [] {
      assert !TokenAt(s, 0);
      SubstAtOther(s, env);
      forall i | 0 <= i <= |s[1..]| ensures !TokenAt(s[1..], i) {
        assert s[1..][i..] == s[i + 1..];
        assert !TokenAt(s, i + 1);
      }
      SubstNoTokens(s[1..], env);
    }
  }

  /**
   * A line that is exactly one placeholder becomes exactly its value,
   * whatever that value contains: a username or locale spelled like a
   * placeholder is emitted as is and not substituted a second time.
   */
  lemma SubstSingleToken(t: Token, env: Env)
    ensures Subst(Name(t), env) == Value(t, env)
  {
    assert IsPrefix(Name(t), Name(t));
    SubstAtToken(Name(t), t, env);
    assert Name(t)[|Name(t)|..] == [];
  }

  /** The fixed mappings of the ten placeholders. */
  lemma FixedMappings(env: Env)
    ensures Subst("NAMEDATALEN", env) == FormatInt(env.nameDataLen)
    ensures Subst("SIZEOF_POINTER", env) == FormatInt(env.pointerSize)
    ensures Subst("ALIGNOF_POINTER", env) == (if env.pointerSize == 4 then "i" else "d")
    ensures Subst("POSTGRES", env) == env.username
    ensures Subst("ENCODING", env) == FormatInt(env.encodingId)
    ensures Subst("LC_COLLATE", env) == env.locale
    ensures Subst("LC_CTYPE", env) == env.locale
    ensures Subst("DATLOCALE", env) == "_null_"
    ensures Subst("ICU_RULES", env) == "_null_"
    ensures Subst("LOCALE_PROVIDER", env) == "c"
  {
    SubstSingleToken(NameDataLen, env);
    SubstSingleToken(SizeofPointer, env);
    SubstSingleToken(AlignofPointer, env);
    SubstSingleToken(Postgres, env);
    SubstSingleToken(Encoding, env);
    SubstSingleToken(LcCollate, env);
    SubstSingleToken(LcCtype, env);
    SubstSingleToken(DatLocale, env);
    SubstSingleToken(IcuRules, env);
    SubstSingleToken(LocaleProvider, env);
  }

  /** Substitution is not idempotent: a username spelled like a placeholder survives one pass only. */
  lemma SubstNotIdempotent()
    ensures var env := Env(64, 8, "ENCODING", 6, "C");
      Subst(Subst("POSTGRES", env), env) != Subst("POSTGRES", env)
  {
    var env := Env(64, 8, "ENCODING", 6, "C");
    SubstSingleToken(Postgres, env);
    SubstSingleToken(Encoding, env);
  }

  /** The `strncmp` test of the source's chain agrees with the placeholder's prefix test. */
  lemma ChainTest(rest: string, t: Token, n: nat)
    requires n == |Name(t)|
    ensures StrNEq(rest, Name(t), n) <==> IsPrefix(Name(t), rest)
  {
    StrNEqIsPrefix(rest, Name(t));
  }

  /** When every test of the chain fails, no placeholder begins `rest`. */
  lemma ChainFailsNoToken(rest: string)
    requires !StrNEq(rest, "NAMEDATALEN", 11) && !StrNEq(rest, "SIZEOF_POINTER", 14)
    requires !StrNEq(rest, "ALIGNOF_POINTER", 15) && !StrNEq(rest, "POSTGRES", 8)
    requires !StrNEq(rest, "ENCODING", 8) && !StrNEq(rest, "LC_COLLATE", 10)
    requires !StrNEq(rest, "LC_CTYPE", 8) && !StrNEq(rest, "DATLOCALE", 9)
    requires !StrNEq(rest, "ICU_RULES", 9) && !StrNEq(rest, "LOCALE_PROVIDER", 15)
    ensures !TokenAt(rest, 0)
  {
    assert rest[0..] == rest;
    forall t: Token ensures !IsPrefix(Name(t), rest) {
      ChainTest(rest, t, |Name(t)|);
      match t
      case NameDataLen => case SizeofPointer => case AlignofPointer => case Postgres => case Encoding =>
      case LcCollate => case LcCtype => case DatLocale => case IcuRules => case LocaleProvider =>
    }
  }

  /** Where the test for placeholder `t` succeeds, the step emits its value and skips its name. */
  lemma StepAtToken(s: string, t: Token, env: Env)
    requires s != [] && StrNEq(s, Name(t), |Name(t)|)
    ensures StepAt(s, env) == Step(Value(t, env), |Name(t)|)
  {
    StrNEqIsPrefix(s, Name(t));
    MatchAtIsUnique(s, t);
  }

  /** Where no placeholder begins, the step copies one character. */
  lemma StepAtOther(s: string, env: Env)
    requires s != [] && !TokenAt(s, 0)
    ensures StepAt(s, env) == Step([s[0]], 1)
  {
    MatchAtNone(s);
  }

  /**
   * One step of the per-line scan at input index `i`: the source's chain of
   * `strncmp` tests with their hard-coded lengths (11, 14, 15, 8, 8, 10, 8,
   * 9, 9, 15). It yields what goes to the output buffer and how far the
   * input index advances, which is exactly one step of `Subst`.
   */
  method ScanStep(line: string, i: nat, env: Env) returns (emit: string, n: nat)
    requires i < |line|
    ensures Step(emit, n) == StepAt(line[i..], env)
  {
    var rest := line[i..];
    if StrNEq(rest, "NAMEDATALEN", 11) {
      emit, n := FormatInt(env.nameDataLen), 11;
      StepAtToken(rest, NameDataLen, env);
    } else if StrNEq(rest, "SIZEOF_POINTER", 14) {
      emit, n := FormatInt(env.pointerSize), 14;
      StepAtToken(rest, SizeofPointer, env);
    } else if StrNEq(rest, "ALIGNOF_POINTER", 15) {
      emit, n := if env.pointerSize == 4 then "i" else "d", 15;
      StepAtToken(rest, AlignofPointer, env);
    } else if StrNEq(rest, "POSTGRES", 8) {
      emit, n := env.username, 8;
      StepAtToken(rest, Postgres, env);
    } else if StrNEq(rest, "ENCODING", 8) {
      emit, n := FormatInt(env.encodingId), 8;
      StepAtToken(rest, Encoding, env);
    } else if StrNEq(rest, "LC_COLLATE", 10) {
      emit, n := env.locale, 10;
      StepAtToken(rest, LcCollate, env);
    } else if StrNEq(rest, "LC_CTYPE", 8) {
      emit, n := env.locale, 8;
      StepAtToken(rest, LcCtype, env);
    } else if StrNEq(rest, "DATLOCALE", 9) {
      emit, n := "_null_", 9;
      StepAtToken(rest, DatLocale, env);
    } else if StrNEq(rest, "ICU_RULES", 9) {
      emit, n := "_null_", 9;
      StepAtToken(rest, IcuRules, env);
    } else if StrNEq(rest, "LOCALE_PROVIDER", 15) {
      emit, n := "c", 15;
      StepAtToken(rest, LocaleProvider, env);
    } else {
      emit, n := [line[i]], 1;
      ChainFailsNoToken(rest);
      StepAtOther(rest, env);
    }
  }

  /** `Subst` of the line from index `i` on, one step unfolded. */
  lemma SubstFrom(line: string, i: nat, env: Env)
    requires i < |line|
    ensures var step := StepAt(line[i..], env);
      i + step.advance <= |line| &&
      Subst(line[i..], env) == step.emit + Subst(line[i + step.advance..], env)
  {
    assert line[i..][StepAt(line[i..], env).advance..] == line[i + StepAt(line[i..], env).advance..];
  }

  /**
   * The per-line scan: the output buffer is separate from the line, the
   * input index only moves forward, and the result is the substituted line.
   */
  method SubstituteLine(line: string, env: Env) returns (output: string)
    ensures output == Subst(line, env)
  {
    output := [];
    var i := 0;
    while i < |line|
      invariant i <= |line|
      invariant output + Subst(line[i..], env) == Subst(line, env)
    {
      var emit, n := ScanStep(line, i, env);
      SubstFrom(line, i, env);
      Regroup(output, emit, Subst(line[i + n..], env));
      output, i := output + emit, i + n;
    }
    assert line[i..] == [];
  }

  lemma Regroup(a: string, b: string, c: string)
    ensures (a + b) + c == a + (b + c)
  {
  }
}
