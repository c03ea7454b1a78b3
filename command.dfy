/**
 * The shell command `pg_embedded_initdb` hands to `system()`: the initdb
 * binary, the data directory and user name in double quotes, and the
 * optional `-E` and `--locale=` fragments.
 */
module InitdbCommandLine {
  import opened Wrappers

  /** The command exactly as the format string builds it. */
  function InitdbCommand(initdb: string, dataDir: string, username: string,
                         encoding: Option<string>, locale: Option<string>): string
  {
    initdb + " -D \"" + dataDir + "\" -U \"" + username + "\" " + Tail(encoding, locale)
  }

  /** Everything after the user name: the optional fragments and the fixed options. */
  function Tail(encoding: Option<string>, locale: Option<string>): string {
    (if encoding.Some? then "-E " else "") + encoding.GetOr("") + " " +
    (if locale.Some? then "--locale=" else "") + locale.GetOr("") + " -A trust 2>&1"
  }

  /**
   * The two spellings of the command line below are the same string, so the
   * shell cannot tell which data directory and user name were meant.
   */
  lemma AsWrittenCollision(initdb: string, encoding: Option<string>, locale: Option<string>)
    ensures InitdbCommand(initdb, "a\" -U \"b", "c", encoding, locale) ==
            InitdbCommand(initdb, "a", "b\" -U \"c", encoding, locale)
  {
    var t := Tail(encoding, locale);
    calc {
      InitdbCommand(initdb, "a\" -U \"b", "c", encoding, locale);
      initdb + " -D \"" + "a\" -U \"b" + "\" -U \"" + "c" + "\" " + t;
      { assert " -D \"" + "a\" -U \"b" + "\" -U \"" + "c" + "\" " == " -D \"" + "a" + "\" -U \"" + "b\" -U \"c" + "\" "; }
      initdb + " -D \"" + "a" + "\" -U \"" + "b\" -U \"c" + "\" " + t;
      InitdbCommand(initdb, "a", "b\" -U \"c", encoding, locale);
    }
  }

  /** The characters a backslash escapes inside double quotes (POSIX shell, section 2.2.3). */
  predicate Special(ch: char) {
    ch == '$' || ch == '`' || ch == '"' || ch == '\\'
  }

  /** Backslash-escape the special characters of `s`. */
  function Escape(s: string): (e: string)
    ensures |e| >= |s|
  {
    if |s| == 0 then "" else (if Special(s[0]) then ['\\', s[0]] else [s[0]]) + Escape(s[1..])
  }

  /** The command with the data directory and user name escaped inside their quotes. */
  function QuotedCommand(initdb: string, dataDir: string, username: string,
                         encoding: Option<string>, locale: Option<string>): string
  {
    initdb + " -D \"" + Escape(dataDir) + "\" -U \"" + Escape(username) + "\" " + Tail(encoding, locale)
  }

  /** Put `c` in front of the word read, if any. */
  function Prepend(c: char, r: Option<(string, string)>): Option<(string, string)> {
    match r
    case None => None
    case Some((w, rest)) => Some(([c] + w, rest))
  }

  /**
   * How the shell reads the inside of a double-quoted word: up to the first
   * unescaped `"`, with a backslash before a special character standing for
   * that character. The result is the word and what follows the closing quote.
   */
  function ReadQuoted(s: string): Option<(string, string)>
    decreases |s|
  {
    if |s| == 0 then None
    else if s[0] == '"' then Some(("", s[1..]))
    else if s[0] == '\\' && |s| >= 2 && Special(s[1]) then Prepend(s[1], ReadQuoted(s[2..]))
    else Prepend(s[0], ReadQuoted(s[1..]))
  }

  lemma ReadOne(c: char, t: string)
    ensures ReadQuoted((if Special(c) then ['\\', c] else [c]) + t) == Prepend(c, ReadQuoted(t))
  {
    if Special(c) {
      assert (['\\', c] + t)[2..] == t;
    } else {
      assert ([c] + t)[1..] == t;
    }
  }

  /** Reading back an escaped word gives the word and the text after its closing quote. */
  lemma {:induction false} ReadEscaped(word: string, rest: string)
    ensures ReadQuoted(Escape(word) + "\"" + rest) == Some((word, rest))
  {
    if |word| == 0 {
      assert Escape(word) + "\"" + rest == "\"" + rest;
    } else {
      var c := word[0];
      var tail := Escape(word[1..]) + "\"" + rest;
      ReadEscaped(word[1..], rest);
      ReadOne(c, tail);
      assert Escape(word) + "\"" + rest == (if Special(c) then ['\\', c] else [c]) + tail;
      assert [c] + word[1..] == word;
    }
  }

  /**
   * How the data directory and the user name are read back from a command
   * line that starts with `initdb`: the first quoted word after `-D`, then the
   * quoted word after `-U`.
   */
  function ParseCommand(initdb: string, cmd: string): Option<(string, string)> {
    if |cmd| < |initdb| + 5 then None else
      match ReadQuoted(cmd[|initdb| + 5..])
      case None => None
      case Some((d, r)) =>
        if |r| < 5 then None else
          match ReadQuoted(r[5..])
          case None => None
          case Some((u, _)) => Some((d, u))
  }

  lemma DropPrefix(a: string, b: string)
    ensures (a + b)[|a|..] == b
  {
  }

  lemma Assoc(a: string, b: string, c: string)
    ensures (a + b) + c == a + (b + c)
  {
  }

  /** The command regrouped around its two quoted words. */
  lemma QuotedShape(initdb: string, dataDir: string, username: string, encoding: Option<string>, locale: Option<string>)
    ensures QuotedCommand(initdb, dataDir, username, encoding, locale) ==
      (initdb + " -D \"") + (Escape(dataDir) + "\"" + (" -U \"" + (Escape(username) + "\"" + (" " + Tail(encoding, locale)))))
  {
    var p, e, f, t := initdb + " -D \"", Escape(dataDir), Escape(username), Tail(encoding, locale);
    var b, c := "\" -U \"", "\" ";
    var rest := " " + t;
    var r := " -U \"" + (f + "\"" + rest);
    assert c == "\"" + " " && b == "\"" + " -U \"";
    calc {
      QuotedCommand(initdb, dataDir, username, encoding, locale);
      (((p + e) + b) + f) + c + t;
      { Assoc(((p + e) + b) + f, c, t); }
      (((p + e) + b) + f) + (c + t);
      { Assoc((p + e) + b, f, c + t); }
      ((p + e) + b) + (f + (c + t));
      { Assoc(p + e, b, f + (c + t)); }
      (p + e) + (b + (f + (c + t)));
      { Assoc(p, e, b + (f + (c + t))); }
      p + (e + (b + (f + (c + t))));
      { Assoc("\"", " ", t); }
      p + (e + (b + (f + ("\"" + rest))));
      { Assoc(f, "\"", rest); }
      p + (e + (b + (f + "\"" + rest)));
      { Assoc("\"", " -U \"", f + "\"" + rest); }
      p + (e + ("\"" + r));
      { Assoc(e, "\"", r); }
      p + (e + "\"" + r);
    }
  }

  /** The escaped command reads back as the data directory and the user name it was built from. */
  lemma ParseQuotedCommand(initdb: string, dataDir: string, username: string, encoding: Option<string>, locale: Option<string>)
    ensures ParseCommand(initdb, QuotedCommand(initdb, dataDir, username, encoding, locale)) == Some((dataDir, username))
  {
    var rest := " " + Tail(encoding, locale);
    var r := " -U \"" + (Escape(username) + "\"" + rest);
    QuotedShape(initdb, dataDir, username, encoding, locale);
    DropPrefix(initdb + " -D \"", Escape(dataDir) + "\"" + r);
    var cmd := QuotedCommand(initdb, dataDir, username, encoding, locale);
    assert |initdb + " -D \""| == |initdb| + 5;
    ReadEscaped(dataDir, r);
    assert ReadQuoted(cmd[|initdb| + 5..]) == Some((dataDir, r));
    DropPrefix(" -U \"", Escape(username) + "\"" + rest);
    ReadEscaped(username, rest);
    assert ReadQuoted(r[5..]) == Some((username, rest));
  }

  /** With escaping, the command determines the data directory and the user name. */
  lemma QuotedCommandInjective(initdb: string, d1: string, u1: string, e1: Option<string>, l1: Option<string>,
                                               d2: string, u2: string, e2: Option<string>, l2: Option<string>)
    requires QuotedCommand(initdb, d1, u1, e1, l1) == QuotedCommand(initdb, d2, u2, e2, l2)
    ensures d1 == d2 && u1 == u2
  {
    ParseQuotedCommand(initdb, d1, u1, e1, l1);
    ParseQuotedCommand(initdb, d2, u2, e2, l2);
  }

  /** Escaping leaves a word unchanged exactly when it has no special character. */
  lemma {:induction false} EscapePlain(s: string)
    ensures Escape(s) == s <==> forall i :: 0 <= i < |s| ==> !Special(s[i])
  {
    if |s| > 0 {
      EscapePlain(s[1..]);
      assert [s[0]] + s[1..] == s;
      if Special(s[0]) {
        assert |Escape(s)| > |s|;
      } else if Escape(s) == s {
        assert Escape(s[1..]) == Escape(s)[1..];
      }
    }
  }

  /** The command as written is right whenever the data directory and user name need no escaping. */
  lemma PlainArgumentsRead(initdb: string, dataDir: string, username: string,
                           encoding: Option<string>, locale: Option<string>)
    requires forall i :: 0 <= i < |dataDir| ==> !Special(dataDir[i])
    requires forall i :: 0 <= i < |username| ==> !Special(username[i])
    ensures InitdbCommand(initdb, dataDir, username, encoding, locale) ==
            QuotedCommand(initdb, dataDir, username, encoding, locale)
  {
    EscapePlain(dataDir);
    EscapePlain(username);
  }

  /** So the command as written reads back correctly when no argument needs escaping. */
  lemma ParsePlainCommand(initdb: string, dataDir: string, username: string,
                          encoding: Option<string>, locale: Option<string>)
    requires forall i :: 0 <= i < |dataDir| ==> !Special(dataDir[i])
    requires forall i :: 0 <= i < |username| ==> !Special(username[i])
    ensures ParseCommand(initdb, InitdbCommand(initdb, dataDir, username, encoding, locale)) == Some((dataDir, username))
  {
    PlainArgumentsRead(initdb, dataDir, username, encoding, locale);
    ParseQuotedCommand(initdb, dataDir, username, encoding, locale);
  }
}
