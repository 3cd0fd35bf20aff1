/** Rust's `str::lines`, as the entry parser and the discovery step use it.
    A text is cut at every '\n'; a '\n' at the very end does not open a further,
    empty line; the empty text has no lines at all; and one '\r' at the end of a
    line is dropped, so "\r\n" ends a line just as '\n' does. */
module TextLines {

  /** Index of the first `c` in `s`, or `|s|` when `s` holds no `c`. */
  function Find(s: string, c: char): (i: nat)
    ensures i <= |s|
    ensures forall k :: 0 <= k < i ==> s[k] != c
    ensures i < |s| ==> s[i] == c
    ensures c !in s[..i]
    decreases |s|
  {
    if s == [] || s[0] == c then 0 else 1 + Find(s[1..], c)
  }

  /** The first `c` of `a + [c] + b` is the one after `a` when `a` holds none. */
  lemma FindAfter(a: string, c: char, b: string)
    requires c !in a
    ensures Find(a + [c] + b, c) == |a|
  {
    var s := a + [c] + b;
    assert s[|a|] == c;
    assert forall k :: 0 <= k < |a| ==> s[k] == a[k];
  }

  /** Drops one trailing carriage return, if there is one. */
  function StripCR(l: string): (r: string)
    ensures r <= l && |l| - 1 <= |r|
    ensures |r| < |l| <==> (l != [] && l[|l| - 1] == '\r')
  {
    if l != [] && l[|l| - 1] == '\r' then l[..|l| - 1] else l
  }

  /** The lines of `s`, in order, as `s.lines()` yields them. */
  function Lines(s: string): (ls: seq<string>)
    ensures ls == [] <==> s == []
    ensures forall k :: 0 <= k < |ls| ==> '\n' !in ls[k]
    ensures ls != [] ==> ls[0] <= s
    decreases |s|
  {
    if s == [] then []
    else
      var i := Find(s, '\n');
      [StripCR(s[..i])] + (if i < |s| then Lines(s[i + 1..]) else [])
  }

  /** A line that `Lines` gives back unchanged: no line break inside, no '\r' at its end. */
  predicate PlainLine(l: string)
  {
    '\n' !in l && (l == [] || l[|l| - 1] != '\r')
  }

  /** The lines joined with '\n' between them (no final '\n'). */
  function Joined(ls: seq<string>): string
  {
    if ls == [] then []
    else if |ls| == 1 then ls[0]
    else ls[0] + "\n" + Joined(ls[1..])
  }

  /** Every line followed by `ending`, as a tool printing one line per item writes them. */
  function Terminated(ls: seq<string>, ending: string): string
  {
    if ls == [] then [] else ls[0] + ending + Terminated(ls[1..], ending)
  }

  /** The first line ends at the first '\n'; everything after that '\n' is cut on its own. */
  lemma LinesCons(a: string, b: string)
    requires '\n' !in a
    ensures Lines(a + "\n" + b) == [StripCR(a)] + Lines(b)
  {
    var s := a + "\n" + b;
    FindAfter(a, '\n', b);
    assert s[..|a|] == a;
    assert s[|a| + 1..] == b;
  }

  /** A text that does not start with a line break has a first line that starts
      with the text's first character. */
  lemma FirstLineStart(s: string)
    requires s != [] && s[0] != '\n' && s[0] != '\r'
    ensures Lines(s)[0] != [] && Lines(s)[0][0] == s[0]
  {
    var i := Find(s, '\n');
    assert 1 <= i;
    var a := s[..i];
    assert a[0] == s[0];
    assert |a| == 1 ==> a[|a| - 1] != '\r';
    assert Lines(s)[0] == StripCR(a);
  }

  /** A text without any '\n' is one line. */
  lemma LinesOfOneLine(a: string)
    requires a != [] && '\n' !in a
    ensures Lines(a) == [StripCR(a)]
  {
    var i := Find(a, '\n');
    assert i == |a|;
    assert a[..i] == a;
  }

  /** Round trip: lines each followed by '\n' are cut back into exactly those lines
      (this is the shape of the path listing the discovery tool prints). */
  lemma {:induction false} LinesOfTerminated(ls: seq<string>)
    requires forall k :: 0 <= k < |ls| ==> PlainLine(ls[k])
    ensures Lines(Terminated(ls, "\n")) == ls
  {
    if ls != [] {
      assert PlainLine(ls[0]);
      LinesCons(ls[0], Terminated(ls[1..], "\n"));
      LinesOfTerminated(ls[1..]);
    }
  }

  /** Round trip with Windows line endings: "\r\n" ends a line like '\n' does. */
  lemma {:induction false} LinesOfCrLfTerminated(ls: seq<string>)
    requires forall k :: 0 <= k < |ls| ==> PlainLine(ls[k])
    ensures Lines(Terminated(ls, "\r\n")) == ls
  {
    if ls != [] {
      var a := ls[0] + "\r";
      assert PlainLine(ls[0]);
      assert forall k :: 0 <= k < |ls[0]| ==> a[k] == ls[0][k];
      assert '\n' !in a;
      assert ls[0] + "\r\n" + Terminated(ls[1..], "\r\n") == a + "\n" + Terminated(ls[1..], "\r\n");
      LinesCons(a, Terminated(ls[1..], "\r\n"));
      assert StripCR(a) == ls[0];
      LinesOfCrLfTerminated(ls[1..]);
    }
  }

  /** Joining with '\n' and adding a final '\n' is ending every line with '\n';
      the joined text ends where its last line ends. */
  lemma {:induction false} JoinedThenNewline(ls: seq<string>)
    requires ls != []
    ensures Joined(ls) + "\n" == Terminated(ls, "\n")
    ensures ls[|ls| - 1] != [] ==> Joined(ls) != [] && Joined(ls)[|Joined(ls)| - 1] == ls[|ls| - 1][|ls[|ls| - 1]| - 1]
  {
    if |ls| > 1 {
      var rest := ls[1..];
      JoinedThenNewline(rest);
      assert Joined(ls) == ls[0] + "\n" + Joined(rest);
      assert Terminated(ls, "\n") == ls[0] + "\n" + Terminated(rest, "\n");
      assert rest[|rest| - 1] == ls[|ls| - 1];
    } else {
      assert Joined(ls) == ls[0];
      assert Terminated(ls, "\n") == ls[0] + "\n" + Terminated([], "\n");
    }
  }

  /** Round trip for lines joined by '\n': it holds as long as the last line is not empty. */
  lemma LinesOfJoined(ls: seq<string>)
    requires ls != [] && ls[|ls| - 1] != []
    requires forall k :: 0 <= k < |ls| ==> PlainLine(ls[k])
    ensures Lines(Joined(ls)) == ls
  {
    var j := Joined(ls);
    JoinedThenNewline(ls);
    assert j != [] && j[|j| - 1] != '\n' by {
      var last := ls[|ls| - 1];
      assert PlainLine(last);
      assert last[|last| - 1] in last;
    }
    FinalNewlineOptional(j);
    LinesOfTerminated(ls);
  }

  /** An empty last line does not survive `Joined` followed by `Lines`: the '\n' before it
      reads as a final line ending, and a single empty line reads as no line at all. */
  lemma JoinedDropsEmptyLastLine()
    ensures Lines(Joined(["a", ""])) == ["a"]
    ensures Lines(Joined([""])) == []
  {
    assert Joined(["a", ""]) == "a" + "\n" + "";
    LinesCons("a", "");
  }

  /** A final line ending is optional: adding one to a text that does not already end
      with '\n' leaves its lines unchanged. */
  lemma {:induction false} FinalNewlineOptional(s: string)
    requires s != [] && s[|s| - 1] != '\n'
    ensures Lines(s + "\n") == Lines(s)
    decreases |s|
  {
    var i := Find(s, '\n');
    var a := s[..i];
    assert '\n' !in a;
    if i == |s| {
      assert a == s;
      LinesOfOneLine(s);
      LinesCons(s, "");
      assert s + "\n" == s + "\n" + "";
    } else {
      var b := s[i + 1..];
      assert i < |s| - 1;
      assert b[|b| - 1] == s[|s| - 1];
      assert s == a + "\n" + b;
      assert s + "\n" == a + "\n" + (b + "\n");
      LinesCons(a, b);
      LinesCons(a, b + "\n");
      FinalNewlineOptional(b);
    }
  }
}
