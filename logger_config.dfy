/**
 * Log-file naming (utils/logger_config.py): `sanitize_log_name` turns a logger
 * name into a name that is safe as a file or directory name.
 */
module LoggerConfig {
  import opened PyStr

  /** The characters a log file name must not contain, in the order they are replaced. */
  const InvalidChars: seq<char> := ['/', '\\', ':', '*', '?', '"', '<', '>', '|', ' ']

  /** The name used when nothing is left of the given one. */
  const DefaultLogger: string := "default_logger"

  /** The characters stripped from both ends after the whitespace. */
  const PathSeparators: set<char> := {'/', '\\'}

  /** The name with surrounding whitespace and then surrounding slashes and backslashes removed. */
  function Trimmed(logName: string): string {
    Strip(Strip(logName, Whitespace), Chars(PathSeparators))
  }

  /** A forbidden character becomes `_`; any other stays. */
  function SafeChar(c: char): (d: char)
    ensures d !in InvalidChars
    ensures c !in InvalidChars ==> d == c
  {
    if c in InvalidChars then '_' else c
  }

  /**
   * The sanitized name, position by position: the trimmed name with every
   * forbidden character turned into `_`, or the default name when the trimmed
   * name is empty.
   */
  function SanitizedSpec(logName: string): string {
    var t := Trimmed(logName);
    if t == [] then DefaultLogger else seq(|t|, k requires 0 <= k < |t| => SafeChar(t[k]))
  }

  /**
   * `sanitize_log_name`: strip, then replace each forbidden character in turn,
   * then fall back to the default name.
   */
  method SanitizeLogName(logName: string) returns (r: string)
    ensures r == SanitizedSpec(logName)
  {
    var sanitized := Strip(Strip(logName, Whitespace), Chars(PathSeparators));
    ghost var t := sanitized;
    for i := 0 to |InvalidChars|
      invariant |sanitized| == |t|
      invariant forall k :: 0 <= k < |t| ==> sanitized[k] == if t[k] in InvalidChars[..i] then '_' else t[k]
    {
      assert InvalidChars[..i + 1] == InvalidChars[..i] + [InvalidChars[i]];
      sanitized := ReplaceChar(sanitized, InvalidChars[i], '_');
    }
    assert InvalidChars[..|InvalidChars|] == InvalidChars;
    if sanitized == [] {
      r := DefaultLogger;
    } else {
      r := sanitized;
    }
  }

  /** The default name is itself a safe name. */
  lemma DefaultLoggerSafe()
    ensures forall c :: c in DefaultLogger ==> c !in InvalidChars && !IsPySpace(c)
  {
  }

  /** A sanitized name is never empty and holds no forbidden character. */
  lemma SanitizedIsSafe(logName: string)
    ensures var r := SanitizedSpec(logName);
            |r| > 0 && forall k :: 0 <= k < |r| ==> r[k] !in InvalidChars
  {
    DefaultLoggerSafe();
    var r := SanitizedSpec(logName);
    if Trimmed(logName) == [] {
      forall k | 0 <= k < |r| ensures r[k] !in InvalidChars {
        assert r[k] in DefaultLogger;
      }
    }
  }

  /**
   * A name that is non-empty, holds no forbidden character and neither starts
   * nor ends with whitespace is already sanitized: it is returned unchanged.
   */
  lemma SafeNameUnchanged(s: string)
    requires s != []
    requires forall k :: 0 <= k < |s| ==> s[k] !in InvalidChars
    requires !IsPySpace(s[0]) && !IsPySpace(s[|s| - 1])
    ensures SanitizedSpec(s) == s
  {
    StripUnchanged(s, Whitespace);
    assert s[0] !in PathSeparators && s[|s| - 1] !in PathSeparators by {
      assert s[0] !in InvalidChars && s[|s| - 1] !in InvalidChars;
    }
    StripUnchanged(s, Chars(PathSeparators));
  }

  /** Every character of the trimmed name is a character of the name. */
  lemma TrimmedFromName(logName: string)
    ensures forall k :: 0 <= k < |Trimmed(logName)| ==> Trimmed(logName)[k] in logName
  {
    var w := Strip(logName, Whitespace);
    var i := StripSpec(logName, Whitespace);
    var j := StripSpec(w, Chars(PathSeparators));
    var t := Trimmed(logName);
    forall k | 0 <= k < |t| ensures t[k] in logName {
      assert t[k] == w[j + k] == logName[i + j + k];
    }
  }

  /**
   * For a name whose only whitespace is the plain space, sanitizing is
   * idempotent: the sanitized name holds no whitespace at all and sanitizes to
   * itself.
   */
  lemma SanitizeIdempotent(logName: string)
    requires forall k :: 0 <= k < |logName| ==> logName[k] == ' ' || !IsPySpace(logName[k])
    ensures var r := SanitizedSpec(logName);
            (forall k :: 0 <= k < |r| ==> !IsPySpace(r[k])) &&
            SanitizedSpec(r) == r
  {
    var t := Trimmed(logName);
    var r := SanitizedSpec(logName);
    SanitizedIsSafe(logName);
    DefaultLoggerSafe();
    TrimmedFromName(logName);
    forall k | 0 <= k < |r| ensures !IsPySpace(r[k]) {
      if t == [] {
        assert r[k] in DefaultLogger;
      } else {
        var m :| 0 <= m < |logName| && logName[m] == t[k];
        assert ' ' in InvalidChars;
      }
    }
    SafeNameUnchanged(r);
  }

  /** Slashes around a name are dropped: "/app/" becomes "app". */
  lemma SlashesDropped()
    ensures SanitizedSpec("/app/") == "app"
  {
    StripUnchanged("/app/", Whitespace);
    assert "/app/"[1..] == "app/";
    assert TrimStart("/app/", Chars(PathSeparators)) == "app/";
    assert "app/"[..3] == "app";
    assert TrimEnd("app/", Chars(PathSeparators)) == "app";
    SafeNameUnchanged("app");
  }

  /** Nothing but whitespace and separators gives the default name. */
  lemma OnlySeparatorsDefault()
    ensures SanitizedSpec(" //\\ ") == DefaultLogger
  {
    var s := " //\\ ";
    assert TrimStart(s, Whitespace) == "//\\ ";
    assert TrimEnd("//\\ ", Whitespace) == "//\\";
    assert TrimStart("//\\", Chars(PathSeparators)) == [];
  }

  /** Inner forbidden characters become underscores: "a:b c" becomes "a_b_c". */
  lemma InnerCharsReplaced()
    ensures SanitizedSpec("a:b c") == "a_b_c"
  {
    StripUnchanged("a:b c", Whitespace);
    StripUnchanged("a:b c", Chars(PathSeparators));
  }

  /**
   * Whitespace inside the separators survives the trim and is replaced:
   * " / x" is trimmed to " x" and becomes "_x".
   */
  lemma SpaceBehindSeparator()
    ensures SanitizedSpec(" / x") == "_x"
  {
    assert TrimStart(" / x", Whitespace) == "/ x";
    StripUnchanged("/ x"[..], Whitespace);
    assert TrimStart("/ x", Chars(PathSeparators)) == " x";
    assert TrimEnd(" x", Chars(PathSeparators)) == " x";
  }

  /**
   * Whitespace other than the space survives when it sits behind a separator:
   * "/\tx" sanitizes to "\tx", which sanitizes further to "x".
   */
  lemma TabBehindSlashKept()
    ensures SanitizedSpec("/\tx") == "\tx"
    ensures SanitizedSpec("\tx") == "x"
  {
    StripUnchanged("/\tx", Whitespace);
    assert "/\tx"[1..] == "\tx";
    assert TrimStart("/\tx", Chars(PathSeparators)) == "\tx";
    StripUnchanged("\tx", Chars(PathSeparators));
    assert "\tx"[1..] == "x";
    assert TrimStart("\tx", Whitespace) == "x";
    StripUnchanged("x", Whitespace);
    StripUnchanged("x", Chars(PathSeparators));
  }

  /**
   * The default name is used exactly when, once surrounding whitespace is
   * stripped, nothing but slashes and backslashes is left.
   */
  lemma DefaultWhenOnlySeparators(logName: string)
    ensures var w := Strip(logName, Whitespace);
            Trimmed(logName) == [] <==> forall k :: 0 <= k < |w| ==> w[k] in PathSeparators
    ensures Trimmed(logName) == [] ==> SanitizedSpec(logName) == DefaultLogger
  {
    var w := Strip(logName, Whitespace);
    var i := StripSpec(w, Chars(PathSeparators));
    if forall k :: 0 <= k < |w| ==> w[k] in PathSeparators {
      AllSeparatorsTrimmed(w);
    }
  }

  lemma {:induction false} AllSeparatorsTrimmed(w: string)
    requires forall k :: 0 <= k < |w| ==> w[k] in PathSeparators
    ensures TrimStart(w, Chars(PathSeparators)) == []
  {
    if w != [] {
      AllSeparatorsTrimmed(w[1..]);
    }
  }

  /** Whitespace between separators is not trimmed: "/ /" becomes "_", not the default name. */
  lemma SpaceBetweenSeparators()
    ensures SanitizedSpec("/ /") == "_"
  {
    StripUnchanged("/ /", Whitespace);
    assert "/ /"[1..] == " /";
    assert TrimStart("/ /", Chars(PathSeparators)) == " /";
    assert " /"[..1] == " ";
    assert TrimEnd(" /", Chars(PathSeparators)) == " ";
  }
}
