/** `pascalCase` and `camelCase` from lib/utils.js: split on whitespace,
    keep the ASCII letters of each piece, capitalise it, and join. */
module CaseConversion {

  /** JavaScript's `\s`: the ECMAScript white space and line terminator
      characters. */
  predicate IsSpace(c: char) {
    ('\t' <= c <= '\r') || c == ' ' || c == '\U{00A0}' || c == '\U{1680}'
    || ('\U{2000}' <= c <= '\U{200A}') || c == '\U{2028}' || c == '\U{2029}'
    || c == '\U{202F}' || c == '\U{205F}' || c == '\U{3000}' || c == '\U{FEFF}'
  }

  predicate IsNonSpace(c: char) {
    !IsSpace(c)
  }

  /** `[A-Za-z]` */
  predicate IsAsciiLetter(c: char) {
    'A' <= c <= 'Z' || 'a' <= c <= 'z'
  }

  /** `\w`: `[A-Za-z0-9_]` */
  predicate IsWordChar(c: char) {
    IsAsciiLetter(c) || '0' <= c <= '9' || c == '_'
  }

  /** `toLowerCase` on the characters it is applied to here (ASCII word
      characters). */
  function ToLower(c: char): (r: char)
    ensures IsAsciiLetter(r) <==> IsAsciiLetter(c)
    ensures IsAsciiLetter(c) ==> 'a' <= r <= 'z'
    ensures !IsAsciiLetter(c) ==> r == c
  {
    if 'A' <= c <= 'Z' then (c as int + 32) as char else c
  }

  /** `toUpperCase` on ASCII word characters: it changes case only. */
  function ToUpper(c: char): (r: char)
    ensures IsAsciiLetter(c) ==> 'A' <= r <= 'Z'
    ensures ToLower(r) == ToLower(c)
  {
    if 'a' <= c <= 'z' then (c as int - 32) as char else c
  }

  function LowerAll(s: string): (r: string)
    ensures |r| == |s|
    ensures forall i :: 0 <= i < |s| ==> r[i] == ToLower(s[i])
  {
    if s == [] then [] else [ToLower(s[0])] + LowerAll(s[1..])
  }

  lemma LowerAllAppend(a: string, b: string)
    ensures LowerAll(a + b) == LowerAll(a) + LowerAll(b)
  {
  }

  /** The characters of `s` that satisfy `keep`, in order. */
  function Filter(keep: char -> bool, s: string): (r: string)
    ensures |r| <= |s|
    ensures forall i :: 0 <= i < |r| ==> keep(r[i])
    ensures r == [] <==> forall i :: 0 <= i < |s| ==> !keep(s[i])
    ensures (forall i :: 0 <= i < |s| ==> keep(s[i])) ==> r == s
  {
    if s == [] then [] else (if keep(s[0]) then [s[0]] else []) + Filter(keep, s[1..])
  }

  lemma {:induction false} FilterAppend(keep: char -> bool, a: string, b: string)
    ensures Filter(keep, a + b) == Filter(keep, a) + Filter(keep, b)
  {
    if a == [] {
      assert a + b == b;
    } else {
      assert (a + b)[0] == a[0];
      assert (a + b)[1..] == a[1..] + b;
      FilterAppend(keep, a[1..], b);
      var head := if keep(a[0]) then [a[0]] else [];
      calc {
        Filter(keep, a + b);
        head + Filter(keep, a[1..] + b);
        head + (Filter(keep, a[1..]) + Filter(keep, b));
        (head + Filter(keep, a[1..])) + Filter(keep, b);
      }
    }
  }

  /** `x.replace(/[^A-Za-z]/g, '')` */
  function StripNonLetters(s: string): (r: string)
    ensures |r| <= |s|
    ensures forall i :: 0 <= i < |r| ==> IsAsciiLetter(r[i])
    ensures r == [] <==> forall i :: 0 <= i < |s| ==> !IsAsciiLetter(s[i])
    ensures (forall i :: 0 <= i < |s| ==> IsAsciiLetter(s[i])) ==> r == s
  {
    Filter(IsAsciiLetter, s)
  }

  /** Dropping whitespace first does not change which letters remain. */
  lemma {:induction false} StripIgnoresSpaces(s: string)
    ensures StripNonLetters(Filter(IsNonSpace, s)) == StripNonLetters(s)
  {
    if s != [] {
      StripIgnoresSpaces(s[1..]);
      var head := if IsNonSpace(s[0]) then [s[0]] else [];
      FilterAppend(IsAsciiLetter, head, Filter(IsNonSpace, s[1..]));
    }
  }

  /** Adds a character to the front of the first piece of a split. */
  function PrependToFirst(c: char, ws: seq<string>): (r: seq<string>)
    ensures |r| == if ws == [] then 1 else |ws|
  {
    if ws == [] then [[c]] else [[c] + ws[0]] + ws[1..]
  }

  /** `s.split(/\s+/)`: the pieces between maximal runs of whitespace,
      with an empty piece before leading and after trailing whitespace.
      Read from the front: a non-whitespace character belongs to the first
      piece, and a whitespace character that ends a run starts a new one. */
  function Split(s: string): seq<string>
  {
    if s == [] then [[]]
    else if !IsSpace(s[0]) then PrependToFirst(s[0], Split(s[1..]))
    else if |s| > 1 && IsSpace(s[1]) then Split(s[1..])
    else [[]] + Split(s[1..])
  }

  /** A split has at least one piece, and no piece holds whitespace. */
  lemma {:induction false} SplitPieces(s: string)
    ensures |Split(s)| >= 1
    ensures forall k, i :: 0 <= k < |Split(s)| && 0 <= i < |Split(s)[k]| ==> !IsSpace(Split(s)[k][i])
  {
    if s != [] {
      SplitPieces(s[1..]);
      var r, t := Split(s), Split(s[1..]);
      if !IsSpace(s[0]) {
        forall k, i | 0 <= k < |r| && 0 <= i < |r[k]|
          ensures !IsSpace(r[k][i])
        {
          assert r == [[s[0]] + t[0]] + t[1..];
          if k == 0 {
            if i > 0 {
              assert r[0][i] == t[0][i - 1];
            }
          } else {
            assert r[k] == t[1..][k - 1] == t[k];
          }
        }
      } else if !(|s| > 1 && IsSpace(s[1])) {
        forall k, i | 0 <= k < |r| && 0 <= i < |r[k]|
          ensures !IsSpace(r[k][i])
        {
          assert r[k] == t[k - 1];
        }
      }
    }
  }

  /** A piece without whitespace is not split. */
  lemma {:induction false} SplitOfWord(w: string)
    requires forall i :: 0 <= i < |w| ==> !IsSpace(w[i])
    ensures Split(w) == [w]
  {
    if w != [] {
      SplitOfWord(w[1..]);
      assert [w[0]] + w[1..] == w;
    }
  }

  /** A whitespace run followed by a non-whitespace character (or by the
      end): the run closes an empty piece and the split goes on after it. */
  lemma {:induction false} SplitAfterRun(sp: string, t: string)
    requires sp != [] && forall i :: 0 <= i < |sp| ==> IsSpace(sp[i])
    requires t == [] || !IsSpace(t[0])
    ensures Split(sp + t) == [[]] + Split(t)
  {
    var s := sp + t;
    assert s[0] == sp[0] && s[1..] == sp[1..] + t;
    if |sp| > 1 {
      assert s[1] == sp[1];
      SplitAfterRun(sp[1..], t);
    } else {
      assert s[1..] == t;
    }
  }

  /** A word followed by a whole whitespace run: the word is the first
      piece and the split goes on after the run. */
  lemma {:induction false} SplitAtSpace(w: string, sp: string, t: string)
    requires forall i :: 0 <= i < |w| ==> !IsSpace(w[i])
    requires sp != [] && forall i :: 0 <= i < |sp| ==> IsSpace(sp[i])
    requires t == [] || !IsSpace(t[0])
    ensures Split(w + sp + t) == [w] + Split(t)
  {
    var s := w + sp + t;
    if w == [] {
      assert s == sp + t;
      SplitAfterRun(sp, t);
    } else {
      assert s[0] == w[0] && s[1..] == w[1..] + sp + t;
      SplitAtSpace(w[1..], sp, t);
      assert [w[0]] + w[1..] == w;
    }
  }

  /** A string starting with whitespace splits into an empty first piece. */
  lemma {:induction false} LeadingSpaceGivesEmptyPiece(s: string)
    requires s != [] && IsSpace(s[0])
    ensures |Split(s)| >= 1 && Split(s)[0] == []
  {
    if |s| > 1 && IsSpace(s[1]) {
      LeadingSpaceGivesEmptyPiece(s[1..]);
    }
  }

  /** `ws.join('')` */
  function Join(ws: seq<string>): string {
    if ws == [] then [] else ws[0] + Join(ws[1..])
  }

  lemma JoinCons(w: string, ws: seq<string>)
    ensures Join([w] + ws) == w + Join(ws)
  {
    assert ([w] + ws)[0] == w && ([w] + ws)[1..] == ws;
  }

  lemma JoinPrepend(c: char, ws: seq<string>)
    ensures Join(PrependToFirst(c, ws)) == [c] + Join(ws)
  {
    if ws == [] {
      JoinCons([c], []);
    } else {
      calc {
        Join(PrependToFirst(c, ws));
        Join([[c] + ws[0]] + ws[1..]);
        { JoinCons([c] + ws[0], ws[1..]); }
        ([c] + ws[0]) + Join(ws[1..]);
        [c] + (ws[0] + Join(ws[1..]));
        [c] + Join(ws);
      }
    }
  }

  /** The pieces of a split, put back together, are the input with its
      whitespace removed. */
  lemma {:induction false} SplitJoin(s: string)
    ensures Join(Split(s)) == Filter(IsNonSpace, s)
  {
    if s == [] {
      JoinCons([], []);
    } else {
      SplitJoin(s[1..]);
      if !IsSpace(s[0]) {
        JoinPrepend(s[0], Split(s[1..]));
      } else if !(|s| > 1 && IsSpace(s[1])) {
        JoinCons([], Split(s[1..]));
      }
    }
  }

  /** The replacement `pascalize` builds for one match: the first captured
      character upper-cased, the rest lower-cased. */
  function Pascalize(w: string): (r: string)
    requires w != []
    ensures LowerAll(r) == LowerAll(w)
    ensures (forall i :: 0 <= i < |w| ==> IsAsciiLetter(w[i])) ==>
              'A' <= r[0] <= 'Z' && forall i :: 1 <= i < |r| ==> 'a' <= r[i] <= 'z'
  {
    [ToUpper(w[0])] + LowerAll(w[1..])
  }

  /** `s.replace(/(\w)(\w*)/g, pascalize)`. Each match is a maximal run of
      word characters and `pascalize` re-cases it, so a word character is
      upper-cased when the character before it is not a word character and
      lower-cased when it is; other characters are left as they are.
      `afterWord` says whether the character before `s` was a word character. */
  function ReplaceWordRuns(s: string, afterWord: bool): (r: string)
    ensures LowerAll(r) == LowerAll(s)
  {
    if s == [] then []
    else
      var c := if !IsWordChar(s[0]) then s[0] else if afterWord then ToLower(s[0]) else ToUpper(s[0]);
      LowerAllAppend([s[0]], s[1..]);
      LowerAllAppend([c], ReplaceWordRuns(s[1..], IsWordChar(s[0])));
      assert s == [s[0]] + s[1..];
      [c] + ReplaceWordRuns(s[1..], IsWordChar(s[0]))
  }

  /** Inside a run of word characters, every character is lower-cased. */
  lemma {:induction false} ReplaceInsideRun(z: string)
    requires forall i :: 0 <= i < |z| ==> IsWordChar(z[i])
    ensures ReplaceWordRuns(z, true) == LowerAll(z)
  {
    if z != [] {
      ReplaceInsideRun(z[1..]);
    }
  }

  /** `Pascalize` extended to the empty piece, which no match can be: a
      piece's letters with the first upper-cased and the rest lower-cased. */
  function Capitalize(y: string): (r: string)
    ensures LowerAll(r) == LowerAll(y)
    ensures (forall i :: 0 <= i < |y| ==> IsAsciiLetter(y[i])) && y != [] ==>
              'A' <= r[0] <= 'Z' && forall i :: 1 <= i < |r| ==> 'a' <= r[i] <= 'z'
  {
    if y == [] then [] else Pascalize(y)
  }

  /** On a string of letters only, the regular-expression replace matches
      the whole string once. */
  lemma ReplaceOnLetters(y: string)
    requires forall i :: 0 <= i < |y| ==> IsAsciiLetter(y[i])
    ensures ReplaceWordRuns(y, false) == Capitalize(y)
  {
    if y != [] {
      ReplaceInsideRun(y[1..]);
    }
  }

  /** `mapToPascal`: the piece's letters, first upper-cased, rest lower-cased;
      a piece without letters becomes empty. */
  function MapToPascal(x: string): (r: string)
    ensures r == Capitalize(StripNonLetters(x))
    ensures StripNonLetters(x) == [] ==> r == []
  {
    ReplaceOnLetters(StripNonLetters(x));
    ReplaceWordRuns(StripNonLetters(x), false)
  }

  function MapAll(ws: seq<string>): (r: seq<string>)
    ensures |r| == |ws|
  {
    if ws == [] then [] else [MapToPascal(ws[0])] + MapAll(ws[1..])
  }

  /** `pascalCase(s)` */
  function PascalCase(s: string): string {
    Join(MapAll(Split(s)))
  }

  /** `camelCase(s)`: `pascalCase(s)` with its first character lower-cased,
      or the empty string when that is empty. */
  function CamelCase(s: string): (r: string)
    ensures |r| == |PascalCase(s)|
    ensures r == [] <==> PascalCase(s) == []
    ensures r != [] ==> r[0] == ToLower(PascalCase(s)[0]) && r[1..] == PascalCase(s)[1..]
  {
    var p := PascalCase(s);
    if p != [] then [ToLower(p[0])] + p[1..] else p
  }

  /** Reference definition: each piece's letters capitalised, concatenated. */
  function CapitalizeWords(ws: seq<string>): string {
    if ws == [] then [] else Capitalize(StripNonLetters(ws[0])) + CapitalizeWords(ws[1..])
  }

  lemma {:induction false} JoinMapAll(ws: seq<string>)
    ensures Join(MapAll(ws)) == CapitalizeWords(ws)
  {
    if ws != [] {
      var m := MapAll(ws);
      assert m[0] == MapToPascal(ws[0]) && m[1..] == MapAll(ws[1..]);
      JoinMapAll(ws[1..]);
    }
  }

  /** Every whitespace-separated piece contributes its letters, the first
      upper-cased and the rest lower-cased, in order and with nothing between. */
  lemma PascalCaseWords(s: string)
    ensures PascalCase(s) == CapitalizeWords(Split(s))
  {
    JoinMapAll(Split(s));
  }

  lemma {:induction false} JoinMapAllLower(ws: seq<string>)
    ensures LowerAll(Join(MapAll(ws))) == LowerAll(StripNonLetters(Join(ws)))
  {
    if ws != [] {
      var m := MapAll(ws);
      assert m[0] == MapToPascal(ws[0]) && m[1..] == MapAll(ws[1..]);
      JoinMapAllLower(ws[1..]);
      LowerAllAppend(MapToPascal(ws[0]), Join(MapAll(ws[1..])));
      FilterAppend(IsAsciiLetter, ws[0], Join(ws[1..]));
      LowerAllAppend(StripNonLetters(ws[0]), StripNonLetters(Join(ws[1..])));
    }
  }

  /** `pascalCase` keeps exactly the ASCII letters of its input, in order,
      changing only their case. */
  lemma PascalCaseKeepsLetters(s: string)
    ensures LowerAll(PascalCase(s)) == LowerAll(StripNonLetters(s))
  {
    JoinMapAllLower(Split(s));
    SplitJoin(s);
    StripIgnoresSpaces(s);
  }

  /** The output holds only ASCII letters, one per letter of the input, and
      so is never longer than the input. */
  lemma PascalCaseLettersOnly(s: string)
    ensures forall i :: 0 <= i < |PascalCase(s)| ==> IsAsciiLetter(PascalCase(s)[i])
    ensures |PascalCase(s)| == |StripNonLetters(s)| <= |s|
  {
    PascalCaseKeepsLetters(s);
    var p, t := PascalCase(s), StripNonLetters(s);
    forall i | 0 <= i < |p|
      ensures IsAsciiLetter(p[i])
    {
      assert LowerAll(p)[i] == ToLower(p[i]) && LowerAll(t)[i] == ToLower(t[i]);
    }
  }

  /** `pascalCase` is empty exactly when the input has no letters; in
      particular `pascalCase("") == ""`. */
  lemma PascalCaseEmptyIff(s: string)
    ensures PascalCase(s) == [] <==> StripNonLetters(s) == []
    ensures PascalCase("") == ""
  {
    PascalCaseLettersOnly(s);
    PascalCaseLettersOnly("");
  }

  /** `camelCase` holds the same letters as `pascalCase`, starts with a
      lower-case letter, and is empty exactly when the input has no letters. */
  lemma CamelCaseShape(s: string)
    ensures LowerAll(CamelCase(s)) == LowerAll(StripNonLetters(s))
    ensures forall i :: 0 <= i < |CamelCase(s)| ==> IsAsciiLetter(CamelCase(s)[i])
    ensures CamelCase(s) != [] ==> 'a' <= CamelCase(s)[0] <= 'z'
    ensures CamelCase(s) == [] <==> StripNonLetters(s) == []
  {
    PascalCaseKeepsLetters(s);
    PascalCaseLettersOnly(s);
    var p, c := PascalCase(s), CamelCase(s);
    if p != [] {
      assert c[0] == ToLower(p[0]);
      assert ToLower(c[0]) == ToLower(p[0]);
      forall i | 0 <= i < |c|
        ensures ToLower(c[i]) == ToLower(p[i])
      {
        if i > 0 {
          assert c[i] == c[1..][i - 1] == p[1..][i - 1] == p[i];
        }
      }
      assert LowerAll(c) == LowerAll(p);
    }
  }
}
