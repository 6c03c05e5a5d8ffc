/** The two string operations on a file name: POSIX `os.path.basename`
    and `str.split('_')`. */
module Paths {

  const SEP: char := '/'
  const UNDERSCORE: char := '_'

  /** The text after the last path separator (all of `path` when it has none,
      empty when `path` ends with a separator): the longest suffix of `path`
      free of separators. */
  function Basename(path: string): (r: string)
    ensures SEP !in r
    ensures |r| <= |path| && r == path[|path| - |r|..]
    ensures |r| < |path| ==> path[|path| - |r| - 1] == SEP
  {
    if path == [] || path[|path| - 1] == SEP then []
    else Basename(path[..|path| - 1]) + [path[|path| - 1]]
  }

  /** The three properties of Basename's contract pick out exactly one suffix. */
  lemma BasenameUnique(path: string, r: string)
    requires SEP !in r
    requires |r| <= |path| && r == path[|path| - |r|..]
    requires |r| < |path| ==> path[|path| - |r| - 1] == SEP
    ensures r == Basename(path)
  {
  }

  /** Only the base name matters: a leading directory, whatever it holds
      (underscores included), is dropped. */
  lemma BasenameUnderDirectory(dir: string, path: string)
    ensures Basename(dir + [SEP] + path) == Basename(path)
  {
    var full := dir + [SEP] + path;
    var b := Basename(path);
    assert full[|full| - |b|..] == b;
    BasenameUnique(full, b);
  }

  /** A name without separators, under a directory path that is empty or ends
      with a separator, is its own base name. */
  lemma BasenameOfName(dir: string, name: string)
    requires dir == [] || dir[|dir| - 1] == SEP
    requires SEP !in name
    ensures Basename(dir + name) == name
  {
    var full := dir + name;
    assert full[|full| - |name|..] == name;
    BasenameUnique(full, name);
  }

  /** Inverse of the split: the tokens glued back together with `_`. */
  function Join(tokens: seq<string>): string
  {
    if tokens == [] then []
    else if |tokens| == 1 then tokens[0]
    else tokens[0] + [UNDERSCORE] + Join(tokens[1..])
  }

  /** `s.split('_')`: at least one token, no token holds `_`, and joining the
      tokens with `_` gives `s` back (so empty tokens are kept). */
  function SplitOnUnderscore(s: string): (tokens: seq<string>)
    ensures |tokens| >= 1
    ensures forall t :: t in tokens ==> UNDERSCORE !in t
    ensures Join(tokens) == s
  {
    if s == [] then [[]]
    else
      var rest := SplitOnUnderscore(s[1..]);
      if s[0] == UNDERSCORE then
        assert s == [UNDERSCORE] + s[1..];
        [[]] + rest
      else
        var tokens := [[s[0]] + rest[0]] + rest[1..];
        assert s == [s[0]] + s[1..];
        assert |rest| > 1 ==> Join(rest) == rest[0] + [UNDERSCORE] + Join(rest[1..]);
        assert tokens[1..] == rest[1..];
        tokens
  }

  /** Splitting undoes joining, for any non-empty list of `_`-free tokens. */
  lemma {:induction false} SplitOfJoin(tokens: seq<string>)
    requires |tokens| >= 1
    requires forall t :: t in tokens ==> UNDERSCORE !in t
    ensures SplitOnUnderscore(Join(tokens)) == tokens
  {
    if |tokens| == 1 {
      SplitOfToken(tokens[0]);
    } else {
      var rest := tokens[1..];
      assert forall t :: t in rest ==> t in tokens;
      SplitOfJoin(rest);
      SplitOfPrefixed(tokens[0], Join(rest));
    }
  }

  /** A `_`-free text splits into itself alone. */
  lemma {:induction false} SplitOfToken(t: string)
    requires UNDERSCORE !in t
    ensures SplitOnUnderscore(t) == [t]
  {
    if t != [] {
      assert UNDERSCORE !in t[1..];
      SplitOfToken(t[1..]);
    }
  }

  /** A `_`-free text followed by `_` becomes the first token of the split. */
  lemma {:induction false} SplitOfPrefixed(t: string, s: string)
    requires UNDERSCORE !in t
    ensures SplitOnUnderscore(t + [UNDERSCORE] + s) == [t] + SplitOnUnderscore(s)
  {
    var full := t + [UNDERSCORE] + s;
    if t == [] {
      assert full[1..] == s;
    } else {
      assert full[1..] == t[1..] + [UNDERSCORE] + s;
      assert UNDERSCORE !in t[1..];
      SplitOfPrefixed(t[1..], s);
      assert t == [t[0]] + t[1..];
    }
  }

  /** `[1]` exists exactly when the text holds an underscore. */
  lemma SecondTokenExists(s: string)
    ensures |SplitOnUnderscore(s)| >= 2 <==> UNDERSCORE in s
  {
    var tokens := SplitOnUnderscore(s);
    if |tokens| >= 2 {
      assert s == tokens[0] + [UNDERSCORE] + Join(tokens[1..]);
      assert s[|tokens[0]|] == UNDERSCORE;
    } else {
      assert tokens[0] in tokens;
    }
  }

  /** A `_`-free text followed by nothing or by `_` is the first token of the split. */
  lemma SplitFirstToken(token: string, tail: string)
    requires UNDERSCORE !in token
    requires tail == [] || tail[0] == UNDERSCORE
    ensures SplitOnUnderscore(token + tail)[0] == token
  {
    if tail == [] {
      assert token + tail == token;
      SplitOfToken(token);
    } else {
      assert tail == [UNDERSCORE] + tail[1..];
      assert token + tail == token + [UNDERSCORE] + tail[1..];
      SplitOfPrefixed(token, tail[1..]);
    }
  }

  /** Token `[1]` of `prefix_token` or `prefix_token_rest` is `token`, when
      neither of the first two tokens holds `_`. */
  lemma SplitSecondToken(prefix: string, token: string, tail: string)
    requires UNDERSCORE !in prefix && UNDERSCORE !in token
    requires tail == [] || tail[0] == UNDERSCORE
    ensures var tokens := SplitOnUnderscore(prefix + [UNDERSCORE] + token + tail);
      |tokens| >= 2 && tokens[1] == token
  {
    var rest := token + tail;
    assert prefix + [UNDERSCORE] + token + tail == prefix + [UNDERSCORE] + rest;
    SplitFirstToken(token, tail);
    SplitOfPrefixed(prefix, rest);
  }
}
