/** The command line of the stand-alone server: with post ids as arguments
    it converts each of them in turn and exits; the arguments are joined
    with spaces, split at every comma or whitespace character, and empty
    pieces dropped, and the run goes ahead only when every piece is a
    decimal number. */
module CliArgs {
  import opened Text

  /** A character the regular expression `/,|\s/` matches: a comma or one
      of JavaScript's whitespace and line-terminator characters. */
  predicate IsSeparator(c: char) {
    var n := c as int;
    c == ',' || n == 0x20 || (0x09 <= n <= 0x0D) || n == 0xA0 || n == 0x1680 ||
    (0x2000 <= n <= 0x200A) || n == 0x2028 || n == 0x2029 || n == 0x202F ||
    n == 0x205F || n == 0x3000 || n == 0xFEFF
  }

  /** A non-empty piece without separators. */
  predicate IsWord(w: string) {
    |w| > 0 && forall i :: 0 <= i < |w| ==> !IsSeparator(w[i])
  }

  /** `args.join(sep)`. */
  function Join(args: seq<string>, sep: string): string {
    if |args| == 0 then ""
    else if |args| == 1 then args[0]
    else args[0] + sep + Join(args[1..], sep)
  }

  /** `s.split(/,|\s/)`: the pieces between separators, empty ones included. */
  function Split(s: string): (pieces: seq<string>)
    ensures |pieces| > 0
  {
    if s == [] then [""]
    else
      var rest := Split(s[1..]);
      if IsSeparator(s[0]) then [""] + rest
      else [[s[0]] + rest[0]] + rest[1..]
  }

  /** `.filter(arg => !!arg)`: the non-empty pieces. */
  function NonEmpty(pieces: seq<string>): (r: seq<string>)
    ensures forall p :: p in r ==> p in pieces && p != ""
    ensures forall p :: p in pieces && p != "" ==> p in r
  {
    if pieces == [] then []
    else if pieces[0] == "" then NonEmpty(pieces[1..])
    else [pieces[0]] + NonEmpty(pieces[1..])
  }

  /** The ids the command line names. */
  function Tokens(args: seq<string>): seq<string> {
    NonEmpty(Split(Join(args, " ")))
  }

  /** What the program does with its arguments. */
  datatype Action = RunServer | ConvertAll(ids: seq<string>) | Reject

  /** Not run as the main module, or without arguments, it serves requests;
      otherwise it converts the tokens when every one of them is all digits
      (`/^\d+$/`), and refuses them all otherwise. */
  function CliAction(isCliMode: bool, args: seq<string>): (a: Action)
    ensures a.ConvertAll? ==> forall t :: t in a.ids ==> IsDigits(t)
  {
    if !isCliMode || |args| == 0 then RunServer
    else
      var tokens := Tokens(args);
      if forall t :: t in tokens ==> IsDigits(t) then ConvertAll(tokens) else Reject
  }

  /** No piece of a split holds a separator. */
  lemma {:induction false} SplitPiecesHaveNoSeparator(s: string)
    ensures forall p :: p in Split(s) ==> forall i :: 0 <= i < |p| ==> !IsSeparator(p[i])
    decreases |s|
  {
    if s != [] {
      SplitPiecesHaveNoSeparator(s[1..]);
      var rest := Split(s[1..]);
      if !IsSeparator(s[0]) {
        var first := [s[0]] + rest[0];
        assert forall i :: 0 < i < |first| ==> first[i] == rest[0][i - 1];
        assert forall p :: p in rest[1..] ==> p in rest;
      }
    }
  }

  /** Every token is a non-empty run of non-separator characters. */
  lemma TokensAreWords(args: seq<string>)
    ensures forall t :: t in Tokens(args) ==> IsWord(t)
  {
    SplitPiecesHaveNoSeparator(Join(args, " "));
  }

  /** A word followed by a separator splits off as one piece. */
  lemma {:induction false} SplitWord(w: string, c: char, rest: string)
    requires forall i :: 0 <= i < |w| ==> !IsSeparator(w[i])
    requires IsSeparator(c)
    ensures Split(w + [c] + rest) == [w] + Split(rest)
    decreases |w|
  {
    var s := w + [c] + rest;
    if w == [] {
      assert s[1..] == rest;
    } else {
      assert s[1..] == w[1..] + [c] + rest;
      SplitWord(w[1..], c, rest);
      assert [w[0]] + w[1..] == w;
    }
  }

  /** A word on its own splits into just itself. */
  lemma {:induction false} SplitLastWord(w: string)
    requires forall i :: 0 <= i < |w| ==> !IsSeparator(w[i])
    ensures Split(w) == [w]
    decreases |w|
  {
    if w != [] {
      SplitLastWord(w[1..]);
      assert [w[0]] + w[1..] == w;
    }
  }

  /** Joining words with any separator and tokenising gives the words back;
      so ids passed as separate arguments, or in one argument joined by
      commas, are read back exactly. */
  lemma {:induction false} TokensOfJoinedWords(words: seq<string>, c: char)
    requires IsSeparator(c)
    requires forall i :: 0 <= i < |words| ==> IsWord(words[i])
    ensures NonEmpty(Split(Join(words, [c]))) == words
    decreases |words|
  {
    if |words| == 1 {
      SplitLastWord(words[0]);
    } else if |words| > 1 {
      assert Join(words, [c]) == words[0] + [c] + Join(words[1..], [c]);
      SplitWord(words[0], c, Join(words[1..], [c]));
      TokensOfJoinedWords(words[1..], c);
    }
  }

  /** The filter keeps the order of the pieces: filtering two lists one
      after the other is filtering their concatenation. */
  lemma {:induction false} NonEmptyAppend(a: seq<string>, b: seq<string>)
    ensures NonEmpty(a + b) == NonEmpty(a) + NonEmpty(b)
    decreases |a|
  {
    if a == [] {
      assert a + b == b;
    } else {
      assert (a + b)[0] == a[0] && (a + b)[1..] == a[1..] + b;
      NonEmptyAppend(a[1..], b);
    }
  }

  /** A string made only of separators. */
  predicate IsSeparators(s: string) {
    forall i :: 0 <= i < |s| ==> IsSeparator(s[i])
  }

  /** Words, each followed by its run of separators: `words[0] + seps[0] +
      words[1] + seps[1] + ...`. */
  function Spaced(words: seq<string>, seps: seq<string>): string
    requires |seps| == |words|
  {
    if words == [] then "" else words[0] + seps[0] + Spaced(words[1..], seps[1..])
  }

  /** A run of separators in front contributes only empty pieces. */
  lemma {:induction false} LeadingSeparatorsDropped(sep: string, rest: string)
    requires IsSeparators(sep)
    ensures NonEmpty(Split(sep + rest)) == NonEmpty(Split(rest))
    decreases |sep|
  {
    if sep == [] {
      assert sep + rest == rest;
    } else {
      var s := sep + rest;
      assert s[0] == sep[0] && s[1..] == sep[1..] + rest;
      var pieces := Split(s);
      assert pieces == [""] + Split(s[1..]);
      assert pieces[1..] == Split(s[1..]);
      LeadingSeparatorsDropped(sep[1..], rest);
    }
  }

  /** A word followed by a non-empty run of separators is one token. */
  lemma WordThenSeparators(w: string, sep: string, rest: string)
    requires IsWord(w) && IsSeparators(sep) && |sep| > 0
    ensures NonEmpty(Split(w + sep + rest)) == [w] + NonEmpty(Split(rest))
  {
    assert w + sep + rest == w + [sep[0]] + (sep[1..] + rest);
    SplitWord(w, sep[0], sep[1..] + rest);
    LeadingSeparatorsDropped(sep[1..], rest);
  }

  /** Tokenising words separated by runs of separators of any length and
      mix, with separators also allowed before the first word and after the
      last, gives exactly the words back, in order. */
  lemma {:induction false} TokensOfSpacedWords(lead: string, words: seq<string>, seps: seq<string>)
    requires IsSeparators(lead) && |seps| == |words|
    requires forall i :: 0 <= i < |words| ==> IsWord(words[i]) && IsSeparators(seps[i])
    requires forall i :: 0 <= i < |words| - 1 ==> |seps[i]| > 0
    ensures NonEmpty(Split(lead + Spaced(words, seps))) == words
    decreases |words|
  {
    LeadingSeparatorsDropped(lead, Spaced(words, seps));
    if |words| == 1 {
      assert Spaced(words, seps) == words[0] + seps[0] + "";
      if seps[0] == "" {
        assert Spaced(words, seps) == words[0];
        SplitLastWord(words[0]);
      } else {
        WordThenSeparators(words[0], seps[0], "");
      }
    } else if |words| > 1 {
      WordThenSeparators(words[0], seps[0], Spaced(words[1..], seps[1..]));
      TokensOfSpacedWords("", words[1..], seps[1..]);
      assert "" + Spaced(words[1..], seps[1..]) == Spaced(words[1..], seps[1..]);
    }
  }

  /** `node index.js 1, 2`: the arguments "1," and "2" name the posts 1 and
      2, the comma and the joining space together separating them. */
  lemma CommaThenSpaceArguments()
    ensures CliAction(true, ["1,", "2"]) == ConvertAll(["1", "2"])
  {
    assert Join(["1,", "2"], " ") == "" + Spaced(["1", "2"], [", ", ""]);
    TokensOfSpacedWords("", ["1", "2"], [", ", ""]);
    assert IsDigits("1") && IsDigits("2");
  }

  /** Ids given as separate words are converted in the order given. */
  lemma DigitArgumentsAreConverted(args: seq<string>)
    requires |args| > 0
    requires forall i :: 0 <= i < |args| ==> IsDigits(args[i])
    ensures CliAction(true, args) == ConvertAll(args)
  {
    forall i | 0 <= i < |args|
      ensures IsWord(args[i])
    {
      assert forall j :: 0 <= j < |args[i]| ==> IsDigit(args[i][j]);
    }
    TokensOfJoinedWords(args, ' ');
  }

  /** A token that is not all digits makes the whole command line rejected. */
  lemma OneBadTokenRejectsAll(args: seq<string>, t: string)
    requires |args| > 0 && t in Tokens(args) && !IsDigits(t)
    ensures CliAction(true, args) == Reject
  {
  }
}
