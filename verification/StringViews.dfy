/**
 The string-view helpers of gtk/tr-utils.h and gtk/tr-utils.cc that the file tree and the
 tracker list are parsed with.
 */
module StringViews {
  /** The position of the first delimiter, or the length. */
  function Find(s: string, delim: char): (i: nat)
    ensures i <= |s|
    ensures delim !in s[..i]
    ensures i < |s| ==> s[i] == delim
  {
    if s == [] || s[0] == delim then 0
    else
      var i := 1 + Find(s[1..], delim);
      assert s[..i] == [s[0]] + s[1..][..i - 1];
      i
  }

  /** What tr_strv_sep hands out, and what it leaves of the view. */
  function Token(s: string, delim: char): string {
    s[..Find(s, delim)]
  }

  function Rest(s: string, delim: char): (r: string)
    ensures s != [] ==> |r| < |s|
  {
    if Find(s, delim) < |s| then s[Find(s, delim) + 1..] else []
  }

  /** Every token in turn; an empty remainder ends the list, so a final delimiter adds no token. */
  function Split(s: string, delim: char): (tokens: seq<string>)
    ensures forall t | t in tokens :: delim !in t
    ensures tokens == [] <==> s == []
    decreases |s|
  {
    if |s| == 0 then [] else [Token(s, delim)] + Split(Rest(s, delim), delim)
  }

  ghost function Join(tokens: seq<string>, delim: char): string
    decreases |tokens|
  {
    if tokens == [] then []
    else if |tokens| == 1 then tokens[0]
    else tokens[0] + [delim] + Join(tokens[1..], delim)
  }

  lemma TokenThenRest(s: string, delim: char)
    ensures s == if Find(s, delim) < |s| then Token(s, delim) + [delim] + Rest(s, delim) else Token(s, delim)
  {
  }

  /** The string without its last character, if that is the delimiter. */
  function Chop(s: string, delim: char): string {
    if s != [] && s[|s| - 1] == delim then s[..|s| - 1] else s
  }

  lemma ChopAfter(front: string, rest: string, delim: char)
    requires rest != []
    ensures Chop(front + rest, delim) == front + Chop(rest, delim)
  {
    assert (front + rest)[|front + rest| - 1] == rest[|rest| - 1];
  }

  lemma JoinFirst(token: string, tokens: seq<string>, delim: char)
    requires tokens != []
    ensures Join([token] + tokens, delim) == token + [delim] + Join(tokens, delim)
  {
    assert ([token] + tokens)[1..] == tokens;
  }

  /** Joining the tokens gives the string back, except that one final delimiter is lost. */
  lemma {:induction false} JoinOfSplit(s: string, delim: char)
    ensures Join(Split(s, delim), delim) == Chop(s, delim)
    decreases |s|
  {
    if s != [] {
      var token, rest := Token(s, delim), Rest(s, delim);
      TokenThenRest(s, delim);
      if rest == [] {
        assert Split(s, delim) == [token];
        if Find(s, delim) < |s| {
          assert Chop(token + [delim], delim) == token;
        } else {
          assert s[|s| - 1] in s[..|s|];
        }
      } else {
        JoinOfSplit(rest, delim);
        JoinFirst(token, Split(rest, delim), delim);
        ChopAfter(token + [delim], rest, delim);
      }
    }
  }

  /** The first delimiter sits right after a token that holds none. */
  lemma {:induction false} FindFirst(token: string, delim: char, rest: string)
    requires delim !in token
    ensures Find(token + [delim] + rest, delim) == |token|
    ensures Find(token, delim) == |token|
    decreases |token|
  {
    if token != [] {
      assert (token + [delim] + rest)[1..] == token[1..] + [delim] + rest;
      FindFirst(token[1..], delim, rest);
    }
  }

  lemma SplitFirst(token: string, delim: char, rest: string)
    requires delim !in token
    ensures Split(token + [delim] + rest, delim) == [token] + Split(rest, delim)
  {
    FindFirst(token, delim, rest);
    var s := token + [delim] + rest;
    assert s[..|token|] == token && s[|token| + 1..] == rest;
  }

  /** Splitting a join gives the tokens back, if they hold no delimiter and the last is not empty. */
  lemma {:induction false} SplitOfJoin(tokens: seq<string>, delim: char)
    requires forall t | t in tokens :: delim !in t
    requires tokens != [] ==> tokens[|tokens| - 1] != []
    ensures Split(Join(tokens, delim), delim) == tokens
    decreases |tokens|
  {
    if |tokens| == 1 {
      FindFirst(tokens[0], delim, []);
      assert Token(tokens[0], delim) == tokens[0] && Rest(tokens[0], delim) == [];
      assert tokens == [tokens[0]] + [];
    } else if |tokens| > 1 {
      SplitOfJoin(tokens[1..], delim);
      SplitFirst(tokens[0], delim, Join(tokens[1..], delim));
    }
  }
}
