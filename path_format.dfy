/** The path text that `reconstructPath` writes: ids joined by " -> ",
and how the stack of its first loop turns into that text. */
module PathFormat {
  import opened Text

  /** The words joined by " -> ". */
  function ArrowJoin(ws: seq<string>): string
    requires |ws| > 0
  {
    if |ws| == 1 then ws[0] else ws[0] + " -> " + ArrowJoin(ws[1..])
  }

  lemma {:induction false} ArrowJoinSnoc(ws: seq<string>, w: string)
    requires |ws| > 0
    ensures ArrowJoin(ws + [w]) == ArrowJoin(ws) + " -> " + w
    decreases |ws|
  {
    if |ws| > 1 {
      assert (ws + [w])[1..] == ws[1..] + [w];
      ArrowJoinSnoc(ws[1..], w);
    } else {
      assert (ws + [w])[1..] == [w];
    }
  }

  /** Each id printed with `%d`. */
  function IdWords(ids: seq<int>): (ws: seq<string>)
    ensures |ws| == |ids| && forall k :: 0 <= k < |ids| ==> ws[k] == IntToString(ids[k])
  {
    if |ids| == 0 then [] else [IntToString(ids[0])] + IdWords(ids[1..])
  }

  /** The path text: the ids in order joined by " -> ". */
  function PathText(ids: seq<int>): string
    requires |ids| > 0
  {
    ArrowJoin(IdWords(ids))
  }

  /** The words of an arrow-joined text, split at its spaces. */
  function Tokens(ws: seq<string>): (ts: seq<string>)
    requires |ws| > 0
    ensures |ts| > 0
  {
    if |ws| == 1 then [ws[0]] else [ws[0], "->"] + Tokens(ws[1..])
  }

  lemma {:induction false} TokensJoin(ws: seq<string>)
    requires |ws| > 0 && forall k :: 0 <= k < |ws| ==> ' ' !in ws[k]
    ensures Join(Tokens(ws), ' ') == ArrowJoin(ws)
    ensures forall k :: 0 <= k < |Tokens(ws)| ==> ' ' !in Tokens(ws)[k]
    decreases |ws|
  {
    if |ws| > 1 {
      TokensJoin(ws[1..]);
      var ts := Tokens(ws);
      var rest := Tokens(ws[1..]);
      assert ts[1..] == ["->"] + rest && ts[1..][1..] == rest;
    }
  }

  /** Reads a path text back: ids separated by " -> ". */
  function ParsePath(s: string): Option<seq<int>> {
    ParseTokens(Split(s, ' '))
  }

  function ParseTokens(ts: seq<string>): Option<seq<int>>
    decreases |ts|
  {
    if |ts| == 0 then None
    else match ParseInt(ts[0])
      case None => None
      case Some(x) =>
        if |ts| == 1 then Some([x])
        else if |ts| == 2 || ts[1] != "->" then None
        else match ParseTokens(ts[2..])
          case None => None
          case Some(rest) => Some([x] + rest)
  }

  lemma {:induction false} ParseIdTokens(ids: seq<int>)
    requires |ids| > 0
    ensures ParseTokens(Tokens(IdWords(ids))) == Some(ids)
    decreases |ids|
  {
    var ws := IdWords(ids);
    assert ParseInt(ws[0]) == Some(ids[0]) by {
      ParseIntToString(ids[0]);
    }
    if |ids| > 1 {
      assert ws[1..] == IdWords(ids[1..]);
      ParseIdTokens(ids[1..]);
      ParseTokensCons(ws[0], ids[0], Tokens(ws[1..]), ids[1..]);
      HeadTail(ids);
    } else {
      ParseTokensOne(ws[0], ids[0]);
      assert ids == [ids[0]];
    }
  }

  lemma HeadTail(s: seq<int>)
    requires |s| > 0
    ensures [s[0]] + s[1..] == s
  {
  }

  lemma ParseTokensOne(w: string, x: int)
    requires ParseInt(w) == Some(x)
    ensures ParseTokens([w]) == Some([x])
  {
  }

  lemma ParseTokensCons(w: string, x: int, rest: seq<string>, xs: seq<int>)
    requires ParseInt(w) == Some(x) && |rest| > 0 && ParseTokens(rest) == Some(xs)
    ensures ParseTokens([w, "->"] + rest) == Some([x] + xs)
  {
    var ts := [w, "->"] + rest;
    assert ts[0] == w && ts[1] == "->" && ts[2..] == rest;
  }

  /** A reconstructed path reads back as the same ids. */
  lemma PathRoundTrip(ids: seq<int>)
    requires |ids| > 0
    ensures ParsePath(PathText(ids)) == Some(ids)
  {
    var ws := IdWords(ids);
    TokensJoin(ws);
    SplitJoin(Tokens(ws), ' ');
    ParseIdTokens(ids);
  }

  function Reversed(s: seq<int>): (r: seq<int>)
    ensures |r| == |s|
  {
    if |s| == 0 then [] else Reversed(s[1..]) + [s[0]]
  }

  lemma {:induction false} ReversedSnoc(s: seq<int>, x: int)
    ensures Reversed(s + [x]) == [x] + Reversed(s)
    decreases |s|
  {
    if |s| > 0 {
      assert (s + [x])[1..] == s[1..] + [x];
      ReversedSnoc(s[1..], x);
    } else {
      assert ([] + [x])[1..] == [];
    }
  }

  lemma {:induction false} ReversedIndex(s: seq<int>, k: int)
    requires 0 <= k < |s|
    ensures Reversed(s)[k] == s[|s| - 1 - k]
    decreases |s|
  {
    if k < |s| - 1 {
      ReversedIndex(s[1..], k);
    }
  }

  /** What the second loop has written when it is about to write stack[i]:
      every id above i, each followed by " -> " unless it is stack[0]. */
  function Out(stack: seq<int>, i: int): string
    requires -1 <= i < |stack|
    decreases |stack| - i
  {
    if i == |stack| - 1 then ""
    else Out(stack, i + 1) + IntToString(stack[i + 1]) + (if i + 1 > 0 then " -> " else "")
  }

  /** Once the whole stack is written, the text is that of the reversed
      stack. */
  lemma OutText(stack: seq<int>)
    requires |stack| > 0
    ensures Out(stack, -1) == PathText(Reversed(stack))
  {
    var chain := Reversed(stack);
    OutWritten(stack, 0);
    ReversedIndex(stack, |stack| - 1);
    WrittenStep(chain, |stack| - 1);
    assert Out(stack, -1) == Out(stack, 0) + IntToString(stack[0]) + "";
    assert Out(stack, 0) + IntToString(stack[0]) + "" == Out(stack, 0) + IntToString(stack[0]);
  }

  /** Above position i, the loop has written the first |stack| - 1 - i ids
      of the reversed stack with their separators. */
  lemma {:induction false} OutWritten(stack: seq<int>, i: int)
    requires 0 <= i < |stack|
    ensures |Reversed(stack)| == |stack| && Out(stack, i) == Written(Reversed(stack), |stack| - 1 - i)
    decreases |stack| - i
  {
    if i < |stack| - 1 {
      var chain := Reversed(stack);
      var j := |stack| - 2 - i;
      var w := IntToString(stack[i + 1]);
      assert Out(stack, i) == Out(stack, i + 1) + w + " -> ";
      OutWritten(stack, i + 1);
      ReversedIndex(stack, j);
      WrittenStep(chain, j);
      assert Written(chain, j) + w + " -> " == Written(chain, |stack| - 1 - i);
    } else {
      assert Written(Reversed(stack), 0) == "";
    }
  }

  /** The text written for the first j ids of a path that has more. */
  function Written(ids: seq<int>, j: int): string
    requires 0 <= j < |ids|
  {
    if j == 0 then "" else PathText(ids[..j]) + " -> "
  }

  /** Writing id j after the first j: with a separator while ids remain,
      and the whole path text after the last. */
  lemma WrittenStep(ids: seq<int>, j: int)
    requires 0 <= j < |ids|
    ensures j < |ids| - 1 ==> Written(ids, j) + IntToString(ids[j]) + " -> " == Written(ids, j + 1)
    ensures j == |ids| - 1 ==> Written(ids, j) + IntToString(ids[j]) == PathText(ids)
  {
    var t := PathText(ids[..j + 1]);
    WrittenUpTo(ids, j);
    if j == |ids| - 1 {
      assert ids[..j + 1] == ids;
    }
  }

  /** The text of the first j + 1 ids is what was written for the first j
      followed by id j. */
  lemma WrittenUpTo(ids: seq<int>, j: int)
    requires 0 <= j < |ids|
    ensures Written(ids, j) + IntToString(ids[j]) == PathText(ids[..j + 1])
  {
    var w := IntToString(ids[j]);
    if j > 0 {
      assert ids[..j + 1] == ids[..j] + [ids[j]];
      assert IdWords(ids[..j + 1]) == IdWords(ids[..j]) + [w];
      ArrowJoinSnoc(IdWords(ids[..j]), w);
    } else {
      assert IdWords(ids[..1]) == [w];
    }
  }
}
