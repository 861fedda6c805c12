/**
 * The initials shown in the profile's avatar: the user's name split on
 * single spaces, the first character of each piece, joined together.
 */
module Profile {
  import opened Wrappers

  /** `s.split(" ")`: the pieces between single spaces; two spaces in a row give an empty piece. */
  function Split(s: string): (tokens: seq<string>)
    ensures |tokens| >= 1
    ensures forall t :: t in tokens ==> ' ' !in t
  {
    if s == [] then [""]
    else
      var rest := Split(s[1..]);
      if s[0] == ' ' then [""] + rest
      else [[s[0]] + rest[0]] + rest[1..]
  }

  /** `tokens.join(" ")`. */
  function JoinWithSpaces(tokens: seq<string>): string {
    if tokens == [] then ""
    else if |tokens| == 1 then tokens[0]
    else tokens[0] + " " + JoinWithSpaces(tokens[1..])
  }

  function CountSpaces(s: string): nat {
    if s == [] then 0 else (if s[0] == ' ' then 1 else 0) + CountSpaces(s[1..])
  }

  /** Joining the pieces with single spaces gives the name back. */
  lemma {:induction false} SplitJoinRoundTrip(s: string)
    ensures JoinWithSpaces(Split(s)) == s
  {
    if s != [] {
      var rest := Split(s[1..]);
      SplitJoinRoundTrip(s[1..]);
      if s[0] == ' ' {
        assert ([""] + rest)[1..] == rest;
      } else {
        var tokens := [[s[0]] + rest[0]] + rest[1..];
        assert tokens[1..] == rest[1..];
        if |rest| > 1 {
          assert JoinWithSpaces(rest) == rest[0] + " " + JoinWithSpaces(rest[1..]);
        }
      }
    }
  }

  /** There is one piece more than there are spaces. */
  lemma {:induction false} SplitCount(s: string)
    ensures |Split(s)| == CountSpaces(s) + 1
  {
    if s != [] {
      SplitCount(s[1..]);
    }
  }

  /** Every character of every piece is a character of the name. */
  lemma {:induction false} SplitChars(s: string, t: string, c: char)
    requires t in Split(s) && c in t
    ensures c in s
  {
    if s != [] {
      var rest := Split(s[1..]);
      if s[0] == ' ' {
        assert t in rest;
        SplitChars(s[1..], t, c);
      } else if t == [s[0]] + rest[0] {
        if c != s[0] {
          assert c in rest[0];
          SplitChars(s[1..], rest[0], c);
        }
      } else {
        assert t in rest[1..];
        SplitChars(s[1..], t, c);
      }
    }
  }

  /** `n[0]`: the first character of a piece, `undefined` for an empty piece. */
  function FirstChar(t: string): Option<char> {
    if t == [] then None else Some(t[0])
  }

  /** `.join("")` over the first characters: `undefined` contributes nothing. */
  function JoinChars(cs: seq<Option<char>>): string {
    if cs == [] then ""
    else (match cs[0] case None => "" case Some(c) => [c]) + JoinChars(cs[1..])
  }

  /** `name.split(" ").map((n) => n[0]).join("")`. */
  function Initials(name: string): (r: string)
    ensures |r| == |NonEmpty(Split(name))|
    ensures forall i :: 0 <= i < |r| ==> r[i] == NonEmpty(Split(name))[i][0]
  {
    var tokens := Split(name);
    JoinFirstChars(tokens);
    JoinChars(seq(|tokens|, i requires 0 <= i < |tokens| => FirstChar(tokens[i])))
  }

  /** The pieces that are not empty, in order. */
  function NonEmpty(tokens: seq<string>): (r: seq<string>)
    ensures |r| <= |tokens|
    ensures forall i :: 0 <= i < |r| ==> r[i] != []
    ensures forall t :: t in r ==> t in tokens
    ensures forall t :: t in tokens && t != [] ==> t in r
  {
    if tokens == [] then []
    else if tokens[0] == [] then NonEmpty(tokens[1..])
    else [tokens[0]] + NonEmpty(tokens[1..])
  }

  lemma {:induction false} JoinFirstChars(tokens: seq<string>)
    ensures var cs := seq(|tokens|, i requires 0 <= i < |tokens| => FirstChar(tokens[i]));
      var r := JoinChars(cs);
      |r| == |NonEmpty(tokens)| &&
      forall i :: 0 <= i < |r| ==> r[i] == NonEmpty(tokens)[i][0]
  {
    if tokens != [] {
      var cs := seq(|tokens|, i requires 0 <= i < |tokens| => FirstChar(tokens[i]));
      var tail := seq(|tokens| - 1, i requires 0 <= i < |tokens| - 1 => FirstChar(tokens[1..][i]));
      assert cs[1..] == tail;
      JoinFirstChars(tokens[1..]);
    }
  }

  /**
   * The initials hold one character per non-empty piece of the name, the
   * i-th being the first character of the i-th non-empty piece. No case
   * conversion: each of them is a character of the name.
   */
  lemma InitialsAreFirstChars(name: string)
    ensures |Initials(name)| == |NonEmpty(Split(name))|
    ensures forall i :: 0 <= i < |Initials(name)| ==> Initials(name)[i] == NonEmpty(Split(name))[i][0]
    ensures forall c :: c in Initials(name) ==> c in name
  {
    var tokens := Split(name);
    JoinFirstChars(tokens);
    forall c | c in Initials(name) ensures c in name {
      var i :| 0 <= i < |Initials(name)| && Initials(name)[i] == c;
      var t := NonEmpty(tokens)[i];
      assert t in NonEmpty(tokens);
      SplitChars(name, t, t[0]);
    }
  }

  /** A name without spaces gives its first character; the empty name gives "". */
  lemma {:induction false} InitialsOfOneWord(name: string)
    requires ' ' !in name
    ensures Initials(name) == if name == [] then "" else [name[0]]
  {
    SplitCount(name);
    CountSpacesZero(name);
    InitialsAreFirstChars(name);
    var tokens := Split(name);
    SplitJoinRoundTrip(name);
    assert tokens == [name];
  }

  lemma {:induction false} CountSpacesZero(s: string)
    requires ' ' !in s
    ensures CountSpaces(s) == 0
  {
    if s != [] {
      CountSpacesZero(s[1..]);
    }
  }

  /** At most one initial per space plus one, and never more initials than characters. */
  lemma InitialsLength(name: string)
    ensures |Initials(name)| <= CountSpaces(name) + 1
    ensures |Initials(name)| <= |name|
  {
    InitialsAreFirstChars(name);
    SplitCount(name);
    NonEmptyOfSplit(name);
  }

  lemma {:induction false} NonEmptyOfSplit(s: string)
    ensures |NonEmpty(Split(s))| <= |s|
  {
    if s != [] {
      var rest := Split(s[1..]);
      NonEmptyOfSplit(s[1..]);
      if s[0] == ' ' {
        assert ([""] + rest)[1..] == rest;
      } else {
        var tokens := [[s[0]] + rest[0]] + rest[1..];
        assert tokens[1..] == rest[1..];
        assert |NonEmpty(rest[1..])| <= |NonEmpty(rest)|;
      }
    }
  }
}
