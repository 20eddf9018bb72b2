// Whitespace normalization of incoming chat, on runes.
module Chat {

  const NO_BREAK_SPACE: int := 0xa0

  // The White_Space property of the Unicode standard.
  predicate IsSpace(r: char) {
    var code := r as int;
    0x09 <= code <= 0x0d || code == 0x20 || code == 0x85 || code == NO_BREAK_SPACE || code == 0x1680
    || 0x2000 <= code <= 0x200a || code == 0x2028 || code == 0x2029 || code == 0x202f || code == 0x205f
    || code == 0x3000
  }

  // The 25 code points of that property.
  lemma SpacesExact(r: char)
    ensures IsSpace(r) <==>
              r as int in [0x09, 0x0a, 0x0b, 0x0c, 0x0d, 0x20, 0x85, 0xa0, 0x1680, 0x2000, 0x2001, 0x2002, 0x2003,
                           0x2004, 0x2005, 0x2006, 0x2007, 0x2008, 0x2009, 0x200a, 0x2028, 0x2029, 0x202f, 0x205f,
                           0x3000]
  {}

  predicate EndsInSpace(s: string) {
    s != "" && IsSpace(s[|s| - 1])
  }

  // The maximal runs of other runes, in order.
  function Words(s: string): (ws: seq<string>)
    ensures s != "" && !EndsInSpace(s) ==> ws != []
  {
    if s == "" then []
    else
      var before, r := s[..|s| - 1], s[|s| - 1];
      var ws := Words(before);
      if IsSpace(r) then ws
      else if before == "" || EndsInSpace(before) then ws + [[r]]
      else ws[|ws| - 1 := ws[|ws| - 1] + [r]]
  }

  // The words with one space between neighbours.
  function Join(ws: seq<string>): string {
    if ws == [] then ""
    else if |ws| == 1 then ws[0]
    else Join(ws[..|ws| - 1]) + " " + ws[|ws| - 1]
  }

  function Normalized(s: string): string {
    Join(Words(s))
  }

  method NormalizeIncomingChat(message: string) returns (normalized: string)
    ensures normalized == Normalized(message)
  {
    assert IsSpace(' ');
    assert forall r: char | r as int == NO_BREAK_SPACE :: IsSpace(r);
    hide IsSpace, Join;
    normalized := "";
    EmptyMessage();
    if message == "" { return; }
    var hasContent, whitespacePending := false, false;
    for i := 0 to |message|
      invariant normalized == Normalized(message[..i])
      invariant hasContent <==> Words(message[..i]) != []
      invariant whitespacePending <==> hasContent && EndsInSpace(message[..i])
    {
      var r := message[i];
      assert message[..i + 1][..i] == message[..i];
      if r as int == NO_BREAK_SPACE { r := ' '; }
      if IsSpace(r) {
        if hasContent { whitespacePending := true; }
        continue;
      }
      AppendRune(message[..i], r);
      if whitespacePending {
        normalized := normalized + " ";
        whitespacePending := false;
      }
      normalized := normalized + [r];
      hasContent := true;
    }
    assert message[..|message|] == message;
  }

  lemma EmptyMessage()
    ensures Normalized("") == ""
  {}

  lemma JoinOneMore(ws: seq<string>, w: string)
    ensures Join(ws + [w]) == Join(ws) + (if ws != [] then " " else "") + w
  {
    assert (ws + [w])[..|ws|] == ws;
    if ws == [] { assert "" + "" + w == w; }
  }

  lemma JoinLonger(ws: seq<string>, r: char)
    requires ws != []
    ensures Join(ws[|ws| - 1 := ws[|ws| - 1] + [r]]) == Join(ws) + [r]
  {
    var longer := ws[|ws| - 1 := ws[|ws| - 1] + [r]];
    assert longer[..|ws| - 1] == ws[..|ws| - 1];
  }

  lemma AppendRune(s: string, r: char)
    requires !IsSpace(r)
    ensures Words(s + [r]) != []
    ensures Normalized(s + [r])
            == Normalized(s) + (if Words(s) != [] && EndsInSpace(s) then " " else "") + [r]
  {
    hide IsSpace, Join;
    assert (s + [r])[..|s|] == s;
    if s == "" || EndsInSpace(s) {
      JoinOneMore(Words(s), [r]);
    } else {
      JoinLonger(Words(s), r);
      assert Normalized(s) + "" == Normalized(s);
    }
  }

  // ----- what the words are ------------------------------------------------

  predicate IsWord(w: string) {
    w != "" && forall i | 0 <= i < |w| :: !IsSpace(w[i])
  }

  predicate AllWords(ws: seq<string>) {
    forall i | 0 <= i < |ws| :: IsWord(ws[i])
  }

  lemma {:induction false} WordsAreWords(s: string)
    ensures AllWords(Words(s))
  {
    if s != "" { WordsAreWords(s[..|s| - 1]); }
  }

  lemma {:induction false} WordsOfWord(w: string)
    requires IsWord(w)
    ensures Words(w) == [w]
  {
    var before := w[..|w| - 1];
    assert w == before + [w[|w| - 1]];
    if before != "" {
      WordsOfWord(before);
    }
  }

  // A space separates: the words of the two sides are the words of the whole.
  lemma {:induction false} WordsSplit(a: string, space: char, b: string)
    requires IsSpace(space)
    ensures Words(a + [space] + b) == Words(a) + Words(b)
  {
    hide IsSpace;
    var s := a + [space] + b;
    if b == "" {
      assert s[..|s| - 1] == a;
      assert Words(a) + [] == Words(a);
    } else {
      var before := b[..|b| - 1];
      assert s[..|s| - 1] == a + [space] + before;
      WordsSplit(a, space, before);
    }
  }

  lemma {:induction false} WordsOfJoin(ws: seq<string>)
    requires AllWords(ws)
    ensures Words(Join(ws)) == ws
  {
    if |ws| == 1 {
      WordsOfWord(ws[0]);
    } else if |ws| > 1 {
      var front, last := ws[..|ws| - 1], ws[|ws| - 1];
      WordsOfJoin(front);
      WordsSplit(Join(front), ' ', last);
      WordsOfWord(last);
      assert ws == front + [last];
    }
  }

  // Normalizing a normalized message changes nothing.
  lemma NormalizedIsFixed(s: string)
    ensures Normalized(Normalized(s)) == Normalized(s)
  {
    WordsAreWords(s);
    WordsOfJoin(Words(s));
  }

  // ----- what is kept ------------------------------------------------------

  function WithoutSpaces(s: string): string {
    if s == "" then ""
    else if IsSpace(s[|s| - 1]) then WithoutSpaces(s[..|s| - 1])
    else WithoutSpaces(s[..|s| - 1]) + [s[|s| - 1]]
  }

  // The other runes stay, in order; none is added, and the message gets no
  // longer.
  lemma {:induction false} NormalizedKeepsRunes(s: string)
    ensures WithoutSpaces(Normalized(s)) == WithoutSpaces(s)
    ensures |Normalized(s)| <= |s|
    ensures EndsInSpace(s) && Words(s) != [] ==> |Normalized(s)| < |s|
  {
    if s != "" {
      assert IsSpace(' ');
      hide IsSpace;
      var before, r := s[..|s| - 1], s[|s| - 1];
      assert s == before + [r];
      NormalizedKeepsRunes(before);
      if !IsSpace(r) {
        AppendRune(before, r);
        var gap := if Words(before) != [] && EndsInSpace(before) then " " else "";
        var padded := Normalized(before) + gap;
        assert Normalized(s)[..|padded|] == padded;
        if gap != "" {
          assert padded[..|padded| - 1] == Normalized(before);
        } else {
          assert padded == Normalized(before);
        }
      }
    }
  }

  // No space at either end, and no two spaces together.
  lemma {:induction false} JoinIsTight(ws: seq<string>)
    requires AllWords(ws)
    ensures var s := Join(ws);
            && (ws != [] ==> s != "" && !IsSpace(s[0]) && !IsSpace(s[|s| - 1]))
            && (forall i | 0 <= i < |s| - 1 && IsSpace(s[i]) :: s[i] == ' ' && !IsSpace(s[i + 1]))
  {
    if |ws| > 1 {
      var front, last := ws[..|ws| - 1], ws[|ws| - 1];
      JoinIsTight(front);
      var s := Join(ws);
      assert IsWord(last);
      assert forall i | 0 <= i < |last| :: s[|Join(front)| + 1 + i] == last[i];
      assert forall i | 0 <= i < |Join(front)| :: s[i] == Join(front)[i];
    } else if |ws| == 1 {
      assert IsWord(ws[0]);
    }
  }
}
