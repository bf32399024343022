/** String helpers with Python's meaning: str.isspace, str.lower/upper on
    ASCII letters, str.split() without a separator, ' '.join, str.strip(),
    str.capitalize, and Python's ordering of strings (by code point). */
module Text {

  /** Python's str.isspace(): the characters that str.split() and
      str.strip() treat as whitespace. */
  predicate IsSpace(c: char)
  {
    c == ' ' || ('\t' <= c <= '\r') || ('\U{1C}' <= c <= '\U{1F}')
    || c == '\U{85}' || c == '\U{A0}' || c == '\U{1680}'
    || ('\U{2000}' <= c <= '\U{200A}') || c == '\U{2028}' || c == '\U{2029}'
    || c == '\U{202F}' || c == '\U{205F}' || c == '\U{3000}'
  }

  function LowerChar(c: char): char
  {
    if 'A' <= c <= 'Z' then (c as int + 32) as char else c
  }

  function UpperChar(c: char): char
  {
    if 'a' <= c <= 'z' then (c as int - 32) as char else c
  }

  /** str.lower() */
  function Lower(s: string): (r: string)
    ensures |r| == |s|
    ensures forall i :: 0 <= i < |s| ==> r[i] == LowerChar(s[i])
  {
    seq(|s|, i requires 0 <= i < |s| => LowerChar(s[i]))
  }

  /** str.capitalize(): first character upper case, the rest lower case. */
  function Capitalize(w: string): (r: string)
    ensures |r| == |w|
    ensures w != [] ==> r[0] == UpperChar(w[0])
    ensures forall i :: 1 <= i < |w| ==> r[i] == LowerChar(w[i])
  {
    if w == [] then [] else [UpperChar(w[0])] + Lower(w[1..])
  }

  /** str.replace(old, new) for single characters. */
  function ReplaceChar(s: string, from: char, to: char): (r: string)
    ensures |r| == |s|
    ensures forall i :: 0 <= i < |s| ==> r[i] == (if s[i] == from then to else s[i])
  {
    seq(|s|, i requires 0 <= i < |s| => if s[i] == from then to else s[i])
  }

  /** A word as str.split() produces it: non-empty, no whitespace. */
  predicate IsWord(w: string)
  {
    w != [] && forall i :: 0 <= i < |w| ==> !IsSpace(w[i])
  }

  /** Length of the run of non-whitespace characters that starts s. */
  function WordLen(s: string): (n: nat)
    ensures n <= |s|
    ensures forall i :: 0 <= i < n ==> !IsSpace(s[i])
    ensures n < |s| ==> IsSpace(s[n])
  {
    if s == [] || IsSpace(s[0]) then 0 else 1 + WordLen(s[1..])
  }

  /** str.split() with no separator: runs of whitespace separate words and
      no empty word is produced. */
  function Words(s: string): (ws: seq<string>)
    ensures forall k :: 0 <= k < |ws| ==> IsWord(ws[k])
    decreases |s|
  {
    if s == [] then []
    else if IsSpace(s[0]) then Words(s[1..])
    else
      var n := WordLen(s);
      [s[..n]] + Words(s[n..])
  }

  /** ' '.join(ws) */
  function JoinWords(ws: seq<string>): string
  {
    if ws == [] then ""
    else if |ws| == 1 then ws[0]
    else ws[0] + " " + JoinWords(ws[1..])
  }

  /** Text made of words separated by single spaces: no leading or trailing
      space, no two spaces in a row, and no whitespace but ' '. */
  predicate SingleSpaced(s: string)
  {
    && (s != [] ==> s[0] != ' ' && s[|s| - 1] != ' ')
    && (forall i :: 0 <= i < |s| && IsSpace(s[i]) ==> s[i] == ' ')
    && (forall i :: 0 <= i < |s| - 1 && s[i] == ' ' ==> s[i + 1] != ' ')
  }

  function TrimLeft(s: string): (r: string)
    ensures |r| <= |s| && r == s[|s| - |r|..]
    ensures r == [] || !IsSpace(r[0])
    ensures forall i :: 0 <= i < |s| - |r| ==> IsSpace(s[i])
  {
    if s != [] && IsSpace(s[0]) then TrimLeft(s[1..]) else s
  }

  function TrimRight(s: string): (r: string)
    ensures |r| <= |s| && r == s[..|r|]
    ensures r == [] || !IsSpace(r[|r| - 1])
    ensures forall i :: |r| <= i < |s| ==> IsSpace(s[i])
  {
    if s != [] && IsSpace(s[|s| - 1]) then TrimRight(s[..|s| - 1]) else s
  }

  /** str.strip() */
  function Strip(s: string): string
  {
    TrimRight(TrimLeft(s))
  }

  /** Recursive form of IsWord, which the verifier can evaluate on literals. */
  predicate AllNonSpace(w: string)
  {
    w == [] || (!IsSpace(w[0]) && AllNonSpace(w[1..]))
  }

  lemma {:induction false} AllNonSpaceIsWord(w: string)
    requires w != [] && AllNonSpace(w)
    ensures IsWord(w)
  {
    if |w| > 1 {
      AllNonSpaceIsWord(w[1..]);
      forall i | 0 <= i < |w| ensures !IsSpace(w[i]) {
        if i > 0 { assert w[i] == w[1..][i - 1]; }
      }
    }
  }

  lemma {:induction false} WordLenOfWord(w: string, t: string)
    requires IsWord(w) && (t == [] || IsSpace(t[0]))
    ensures WordLen(w + t) == |w|
  {
    if |w| > 1 {
      assert (w + t)[1..] == w[1..] + t;
      WordLenOfWord(w[1..], t);
    } else {
      assert (w + t)[1..] == t;
    }
  }

  /** A word followed by whitespace (or by nothing) splits off as the first word. */
  lemma WordsOfWordThen(w: string, t: string)
    requires IsWord(w) && (t == [] || IsSpace(t[0]))
    ensures Words(w + t) == [w] + Words(t)
  {
    WordLenOfWord(w, t);
    assert (w + t)[..|w|] == w;
    assert (w + t)[|w|..] == t;
  }

  /** str.split() undoes ' '.join on words. */
  lemma {:induction false} WordsOfJoin(ws: seq<string>)
    requires forall k :: 0 <= k < |ws| ==> IsWord(ws[k])
    ensures Words(JoinWords(ws)) == ws
  {
    if |ws| == 1 {
      WordsOfWordThen(ws[0], "");
      assert ws[0] + "" == ws[0];
    } else if |ws| > 1 {
      var rest := JoinWords(ws[1..]);
      assert ws[0] + " " + rest == ws[0] + (" " + rest);
      WordsOfWordThen(ws[0], " " + rest);
      assert (" " + rest)[1..] == rest;
      WordsOfJoin(ws[1..]);
    }
  }

  /** The characters of s other than whitespace, in order. */
  function NonSpace(s: string): (r: string)
    ensures |r| <= |s|
  {
    if s == [] then [] else (if IsSpace(s[0]) then [] else [s[0]]) + NonSpace(s[1..])
  }

  /** ''.join(ws) */
  function Concat(ws: seq<string>): string
  {
    if ws == [] then [] else ws[0] + Concat(ws[1..])
  }

  /** A leading run without whitespace is kept whole by NonSpace. */
  lemma {:induction false} NonSpaceOfRun(s: string, n: nat)
    requires n <= |s| && forall i :: 0 <= i < n ==> !IsSpace(s[i])
    ensures NonSpace(s) == s[..n] + NonSpace(s[n..])
  {
    if n > 0 {
      NonSpaceOfRun(s[1..], n - 1);
      assert s[1..][..n - 1] == s[1..n] && s[1..][n - 1..] == s[n..];
      assert s[..n] == [s[0]] + s[1..n];
    }
  }

  /** str.split() loses nothing but whitespace: its words, put back
      together, are the non-whitespace characters of s in order. */
  lemma {:induction false} WordsCover(s: string)
    ensures Concat(Words(s)) == NonSpace(s)
    decreases |s|
  {
    if s != [] {
      if IsSpace(s[0]) {
        WordsCover(s[1..]);
      } else {
        var n := WordLen(s);
        NonSpaceOfRun(s, n);
        WordsCover(s[n..]);
        var ws := [s[..n]] + Words(s[n..]);
        assert ws[0] == s[..n] && ws[1..] == Words(s[n..]);
      }
    }
  }

  /** Whitespace after s ends the run that starts s where s's own run ends. */
  lemma {:induction false} WordLenBeforeSpace(s: string, u: string)
    requires u != [] && IsSpace(u[0])
    ensures WordLen(s + u) == WordLen(s)
  {
    if s == [] {
      assert s + u == u;
    } else if !IsSpace(s[0]) {
      assert (s + u)[0] == s[0] && (s + u)[1..] == s[1..] + u;
      WordLenBeforeSpace(s[1..], u);
    } else {
      assert (s + u)[0] == s[0];
    }
  }

  /** str.split() breaks at every whitespace character: the words of
      s, a whitespace character and t are the words of s, then those of t.
      So no word spans whitespace and each is a maximal run. */
  lemma {:induction false} WordsSplitAtSpace(s: string, c: char, t: string)
    requires IsSpace(c)
    ensures Words(s + [c] + t) == Words(s) + Words(t)
    decreases |s|
  {
    var u := s + [c] + t;
    if s == [] {
      assert u == [c] + t && u[1..] == t;
    } else if IsSpace(s[0]) {
      assert u[0] == s[0] && u[1..] == s[1..] + [c] + t;
      WordsSplitAtSpace(s[1..], c, t);
    } else {
      var n := WordLen(s);
      assert u == s + ([c] + t);
      WordLenBeforeSpace(s, [c] + t);
      assert u[0] == s[0] && u[..n] == s[..n] && u[n..] == s[n..] + [c] + t;
      WordsSplitAtSpace(s[n..], c, t);
      assert Words(s) == [s[..n]] + Words(s[n..]);
    }
  }

  /** Python's `a <= b` on str: lexicographic by code point. */
  predicate LexLe(a: string, b: string)
  {
    a == [] || (b != [] && (a[0] < b[0] || (a[0] == b[0] && LexLe(a[1..], b[1..]))))
  }

  lemma {:induction false} LexLeTotal(a: string, b: string)
    ensures LexLe(a, b) || LexLe(b, a)
  {
    if a != [] && b != [] && a[0] == b[0] {
      LexLeTotal(a[1..], b[1..]);
    }
  }

  lemma {:induction false} LexLeTransitive(a: string, b: string, c: string)
    requires LexLe(a, b) && LexLe(b, c)
    ensures LexLe(a, c)
  {
    if a != [] && a[0] == b[0] && b[0] == c[0] {
      LexLeTransitive(a[1..], b[1..], c[1..]);
    }
  }

  lemma {:induction false} LexLeAntisymmetric(a: string, b: string)
    requires LexLe(a, b) && LexLe(b, a)
    ensures a == b
  {
    if a != [] {
      LexLeAntisymmetric(a[1..], b[1..]);
      assert a == [a[0]] + a[1..] && b == [b[0]] + b[1..];
    }
  }

  /** Case mapping turns no character into whitespace or into c. */
  lemma CaseMappingKeeps(c: char, d: char)
    requires !IsSpace(c) && c != d && d == LowerChar(d) && d == UpperChar(d)
    ensures !IsSpace(UpperChar(c)) && !IsSpace(LowerChar(c))
    ensures UpperChar(c) != d && LowerChar(c) != d
  {
  }

  /** A capitalised word is a word, and gains no '_'. */
  lemma CapitalizeKeepsWord(w: string)
    requires IsWord(w) && '_' !in w
    ensures IsWord(Capitalize(w)) && '_' !in Capitalize(w)
  {
    var r := Capitalize(w);
    forall i | 0 <= i < |w| ensures !IsSpace(r[i]) && r[i] != '_' {
      CaseMappingKeeps(w[i], '_');
    }
  }

  /** str.capitalize() is idempotent. */
  lemma CapitalizeIdempotent(w: string)
    ensures Capitalize(Capitalize(w)) == Capitalize(w)
  {
  }

  /** ' '.join of words starts with the first word's first character and
      ends with the last word's last character. */
  lemma {:induction false} JoinWordsEnds(ws: seq<string>)
    requires ws != [] && forall k :: 0 <= k < |ws| ==> IsWord(ws[k])
    ensures var s := JoinWords(ws);
      && ws[0] != [] && ws[|ws| - 1] != []
      && |s| >= |ws[0]| && s[..|ws[0]|] == ws[0]
      && s[|s| - 1] == ws[|ws| - 1][|ws[|ws| - 1]| - 1]
  {
    assert IsWord(ws[0]) && IsWord(ws[|ws| - 1]);
    if |ws| > 1 {
      JoinWordsEnds(ws[1..]);
    }
  }

  /** ' '.join of words is single-spaced. */
  lemma {:induction false} JoinWordsSingleSpaced(ws: seq<string>)
    requires forall k :: 0 <= k < |ws| ==> IsWord(ws[k])
    ensures SingleSpaced(JoinWords(ws))
  {
    if |ws| > 1 {
      var w := ws[0];
      var r := JoinWords(ws[1..]);
      var s := JoinWords(ws);
      JoinWordsSingleSpaced(ws[1..]);
      JoinWordsEnds(ws[1..]);
      JoinWordsEnds(ws);
      assert s == w + " " + r;
      assert forall i :: 0 <= i < |w| ==> s[i] == w[i];
      assert s[|w|] == ' ';
      assert forall i :: |w| < i < |s| ==> s[i] == r[i - |w| - 1];
      assert r[0] == ws[1][0];
      forall i | 0 <= i < |s| && IsSpace(s[i]) ensures s[i] == ' ' {
        if i > |w| { assert IsSpace(r[i - |w| - 1]); }
      }
      forall i | 0 <= i < |s| - 1 && s[i] == ' ' ensures s[i + 1] != ' ' {
        if i > |w| { assert r[i - |w| - 1] == ' '; }
      }
    }
  }

  /** ' '.join adds no character but ' '. */
  lemma {:induction false} JoinWordsAvoids(ws: seq<string>, c: char)
    requires c != ' ' && forall k :: 0 <= k < |ws| ==> c !in ws[k]
    ensures c !in JoinWords(ws)
  {
    if |ws| > 1 {
      JoinWordsAvoids(ws[1..], c);
    }
  }

}
