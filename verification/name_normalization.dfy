/**
  How scripts/generar_codificaciones.py turns a photo's file name into the
  person's name (`normalize_name`) and which directory entries it treats as
  photos.

  A file name is `<NAMES-WITH-HYPHENS>_<SURNAMES-WITH-HYPHENS>_<N>.jpg`: the
  extension goes, then one trailing `_N` or `-N`, then hyphens and
  underscores become spaces and runs of whitespace collapse to one space.
*/
module NameNormalization {
  import opened Decimal

  /**
    Python's `str.isspace`. It is also what `\s` matches in a str pattern and
    what `str.strip()` removes: the ASCII controls 9-13 and 28-31, the space,
    and the Unicode spaces and separators below.
  */
  predicate IsSpace(c: char) {
    var n := c as int;
    (9 <= n <= 13) || (28 <= n <= 32) || n == 0x85 || n == 0xA0 || n == 0x1680
    || (0x2000 <= n <= 0x200A) || n == 0x2028 || n == 0x2029 || n == 0x202F
    || n == 0x205F || n == 0x3000
  }

  /** The characters of `[_-]`. */
  predicate IsSep(c: char) {
    c == '-' || c == '_'
  }

  // ---------------------------------------------------------------- stem

  /** `str.rfind`: the index of the last `c` in `s`, or -1. */
  function LastIndexOf(s: string, c: char): (i: int)
    ensures -1 <= i < |s|
    ensures i >= 0 ==> s[i] == c
    ensures forall j :: i < j < |s| ==> s[j] != c
    decreases |s|
  {
    if |s| == 0 then -1
    else if s[|s| - 1] == c then |s| - 1
    else LastIndexOf(s[..|s| - 1], c)
  }

  /**
    Position `i` holds the dot that starts the suffix of file name `name`:
    the last dot, neither the first character nor the last.
  */
  predicate SuffixDotAt(name: string, i: int) {
    0 < i < |name| - 1 && name[i] == '.' && forall j :: i < j < |name| ==> name[j] != '.'
  }

  /**
    `Path(name).stem` for a bare directory entry: everything before the
    suffix dot, or the whole name when it has no suffix (no dot, only a
    leading dot, or a trailing one).
  */
  function Stem(name: string): (r: string)
    ensures (exists i :: SuffixDotAt(name, i) && r == name[..i])
         || (r == name && forall i :: !SuffixDotAt(name, i))
  {
    var i := LastIndexOf(name, '.');
    if 0 < i < |name| - 1 then name[..i] else name
  }

  /** The extension is what `Stem` removes: a non-empty base, a dot, a non-empty extension without dots. */
  lemma StemDropsExtension(base: string, ext: string)
    requires |base| > 0 && |ext| > 0 && '.' !in ext
    ensures Stem(base + "." + ext) == base
  {
    var name := base + "." + ext;
    assert SuffixDotAt(name, |base|) by {
      forall j | |base| < j < |name| ensures name[j] != '.' {
        assert name[j] == ext[j - |base| - 1];
      }
    }
    if i :| SuffixDotAt(name, i) && i != |base| {
      assert false;
    }
  }

  // ------------------------------------------------------- number suffix

  /** `s[a..b]` is a match of `[_-]\d+$`: a separator, digits, then the end of `s` or a final newline before it. */
  predicate NumberSuffixAt(s: string, a: int, b: int) {
    && 0 <= a && a + 2 <= b <= |s|
    && IsSep(s[a])
    && AllDigits(s[a + 1..b])
    && (b == |s| || (b == |s| - 1 && s[b] == '\n'))
  }

  /** Where `$` can match: the end of `s`, or just before a final newline. */
  function MatchEnd(s: string): (e: nat)
    ensures e <= |s|
  {
    if |s| > 0 && s[|s| - 1] == '\n' then |s| - 1 else |s|
  }

  /** The start of the longest run of digits at the end of `s`. */
  function DigitRunStart(s: string): (k: nat)
    ensures k <= |s|
    ensures AllDigits(s[k..])
    ensures k == 0 || !IsDigit(s[k - 1])
    decreases |s|
  {
    if |s| == 0 || !IsDigit(s[|s| - 1]) then |s|
    else DigitRunStart(s[..|s| - 1])
  }

  /** Any match of `[_-]\d+$` is the one ending at `MatchEnd` and starting just before the final digit run. */
  lemma NumberSuffixPinned(s: string, a: int, b: int)
    requires NumberSuffixAt(s, a, b)
    ensures b == MatchEnd(s)
    ensures a + 1 == DigitRunStart(s[..b])
  {
  }

  /** There is at most one match, so at most one number suffix is ever removed. */
  lemma NumberSuffixUnique(s: string, a: int, b: int, a': int, b': int)
    requires NumberSuffixAt(s, a, b) && NumberSuffixAt(s, a', b')
    ensures a == a' && b == b'
  {
    NumberSuffixPinned(s, a, b);
    NumberSuffixPinned(s, a', b');
  }

  /**
    `re.sub(r'[_-]\d+$', '', s)`: removes the match of a separator followed
    by digits at the end (or before a final newline), and returns `s`
    unchanged when there is none.
  */
  function StripNumberSuffix(s: string): (r: string)
    ensures (exists a, b :: NumberSuffixAt(s, a, b) && r == s[..a] + s[b..])
         || (r == s && forall a, b :: !NumberSuffixAt(s, a, b))
  {
    var e := MatchEnd(s);
    var k := DigitRunStart(s[..e]);
    if 0 < k < e && IsSep(s[k - 1]) then
      assert NumberSuffixAt(s, k - 1, e) by {
        assert s[k..e] == s[..e][k..];
      }
      s[..k - 1] + s[e..]
    else
      assert forall a, b :: !NumberSuffixAt(s, a, b) by {
        forall a, b | NumberSuffixAt(s, a, b) ensures false {
          NumberSuffixPinned(s, a, b);
        }
      }
      s
  }

  // ------------------------------------------------ separators and spaces

  /** `s.replace('-', ' ').replace('_', ' ')`. */
  function ReplaceSeparators(s: string): (r: string)
    ensures |r| == |s|
    ensures forall i :: 0 <= i < |s| ==> r[i] == (if IsSep(s[i]) then ' ' else s[i])
    decreases |s|
  {
    if |s| == 0 then ""
    else [if IsSep(s[0]) then ' ' else s[0]] + ReplaceSeparators(s[1..])
  }

  /** `s.lstrip()`: drops the leading whitespace. */
  function TrimStart(s: string): (r: string)
    ensures |r| <= |s| && r == s[|s| - |r|..]
    ensures forall i :: 0 <= i < |s| - |r| ==> IsSpace(s[i])
    ensures |r| == 0 || !IsSpace(r[0])
    decreases |s|
  {
    if |s| > 0 && IsSpace(s[0]) then TrimStart(s[1..]) else s
  }

  /** `s.rstrip()`: drops the trailing whitespace. */
  function TrimEnd(s: string): (r: string)
    ensures |r| <= |s| && r == s[..|r|]
    ensures forall i :: |r| <= i < |s| ==> IsSpace(s[i])
    ensures |r| == 0 || !IsSpace(r[|r| - 1])
    decreases |s|
  {
    if |s| > 0 && IsSpace(s[|s| - 1]) then TrimEnd(s[..|s| - 1]) else s
  }

  /** How many whitespace characters `s.lstrip()` drops. */
  function LeadingSpaces(s: string): nat {
    |s| - |TrimStart(s)|
  }

  /** `s.strip()`: the slice of `s` left after dropping whitespace at both ends. */
  function Strip(s: string): (r: string)
    ensures LeadingSpaces(s) + |r| <= |s|
    ensures r == s[LeadingSpaces(s)..LeadingSpaces(s) + |r|]
    ensures |r| == 0 || (!IsSpace(r[0]) && !IsSpace(r[|r| - 1]))
  {
    TrimEnd(TrimStart(s))
  }

  /** What `Strip` cuts away is whitespace only. */
  lemma StripDropsOnlySpaces(s: string)
    ensures forall i :: 0 <= i < LeadingSpaces(s) ==> IsSpace(s[i])
    ensures forall i :: LeadingSpaces(s) + |Strip(s)| <= i < |s| ==> IsSpace(s[i])
  {
    var t := TrimStart(s);
    var a := |s| - |t|;
    forall i | a + |Strip(s)| <= i < |s|
      ensures IsSpace(s[i])
    {
      assert s[i] == t[i - a];
    }
  }

  /** No two whitespace characters stand next to each other. */
  predicate NoDoubleSpace(s: string) {
    forall i, j :: 0 <= i < |s| && j == i + 1 && j < |s| ==> !(IsSpace(s[i]) && IsSpace(s[j]))
  }

  /** The characters of `s` that are not whitespace, in order. */
  function NonSpace(s: string): string
    decreases |s|
  {
    if |s| == 0 then ""
    else (if IsSpace(s[0]) then "" else [s[0]]) + NonSpace(s[1..])
  }

  lemma {:induction false} NonSpaceOfSpaces(s: string, k: nat)
    requires k <= |s| && forall i :: 0 <= i < k ==> IsSpace(s[i])
    ensures NonSpace(s) == NonSpace(s[k..])
    decreases k
  {
    if k > 0 {
      NonSpaceOfSpaces(s[1..], k - 1);
      assert s[1..][k - 1..] == s[k..];
    }
  }

  /** A character survives `NonSpace` exactly when it occurs in the text and is not whitespace. */
  lemma {:induction false} NonSpaceMembers(s: string, c: char)
    ensures c in NonSpace(s) <==> c in s && !IsSpace(c)
    decreases |s|
  {
    if |s| > 0 {
      NonSpaceMembers(s[1..], c);
      assert s == [s[0]] + s[1..];
    }
  }

  /**
    A character-by-character reading of `re.sub(r'\s+', ' ', s)`: scanning
    left to right, a whitespace character becomes a space when the character
    before it was not whitespace (`afterSpace` false) and disappears when it
    was; every other character is copied.
  */
  function Squeeze(s: string, afterSpace: bool): string
    decreases |s|
  {
    if |s| == 0 then ""
    else if IsSpace(s[0]) then (if afterSpace then "" else " ") + Squeeze(s[1..], true)
    else [s[0]] + Squeeze(s[1..], false)
  }

  /** Right after whitespace, a further run of whitespace leaves no trace. */
  lemma {:induction false} SqueezeAfterSpace(s: string)
    ensures Squeeze(s, true) == Squeeze(TrimStart(s), false)
    decreases |s|
  {
    if |s| > 0 && IsSpace(s[0]) {
      SqueezeAfterSpace(s[1..]);
    }
  }

  /**
    `re.sub(r'\s+', ' ', s)`: every maximal run of whitespace becomes one
    space and everything else is kept.
  */
  function CollapseSpaces(s: string): (r: string)
    ensures NoDoubleSpace(r)
    ensures forall i :: 0 <= i < |r| && IsSpace(r[i]) ==> r[i] == ' '
    ensures |r| == 0 <==> |s| == 0
    ensures |r| > 0 ==> (IsSpace(r[0]) <==> IsSpace(s[0]))
    decreases |s|
  {
    if |s| == 0 then ""
    else if IsSpace(s[0]) then " " + CollapseSpaces(TrimStart(s))
    else [s[0]] + CollapseSpaces(s[1..])
  }

  /** The collapse agrees with the character-by-character reading `Squeeze`. */
  lemma {:induction false} CollapseIsSqueeze(s: string)
    ensures CollapseSpaces(s) == Squeeze(s, false)
    decreases |s|
  {
    if |s| > 0 {
      if IsSpace(s[0]) {
        SqueezeAfterSpace(s[1..]);
        CollapseIsSqueeze(TrimStart(s));
      } else {
        CollapseIsSqueeze(s[1..]);
      }
    }
  }

  /**
    The collapse on one run: a word, a non-empty run of whitespace and a
    text that starts with something else give the word, one space and the
    collapse of the rest.
  */
  lemma CollapseRun(w: string, ws: string, t: string)
    requires forall i :: 0 <= i < |w| ==> !IsSpace(w[i])
    requires |ws| > 0 && forall i :: 0 <= i < |ws| ==> IsSpace(ws[i])
    requires |t| == 0 || !IsSpace(t[0])
    ensures CollapseSpaces(w + ws + t) == w + " " + CollapseSpaces(t)
  {
    var x := w + (ws + t);
    assert w + ws + t == x;
    CollapseIsSqueeze(x);
    CollapseIsSqueeze(t);
    SqueezeWord(w, ws + t);
    SqueezeSpaces(ws, t);
  }

  /** A word is copied unchanged. */
  lemma {:induction false} SqueezeWord(w: string, rest: string)
    requires forall i :: 0 <= i < |w| ==> !IsSpace(w[i])
    ensures Squeeze(w + rest, false) == w + Squeeze(rest, false)
    decreases |w|
  {
    if |w| > 0 {
      assert (w + rest)[0] == w[0] && (w + rest)[1..] == w[1..] + rest;
      SqueezeWord(w[1..], rest);
      assert w == [w[0]] + w[1..];
    } else {
      assert w + rest == rest;
    }
  }

  /** A run of whitespace in front of a non-whitespace text becomes one space. */
  lemma {:induction false} SqueezeSpaces(ws: string, t: string)
    requires |ws| > 0 && forall i :: 0 <= i < |ws| ==> IsSpace(ws[i])
    requires |t| == 0 || !IsSpace(t[0])
    ensures Squeeze(ws + t, false) == " " + Squeeze(t, false)
  {
    assert (ws + t)[1..] == ws[1..] + t;
    SqueezeDropsSpaces(ws[1..], t);
  }

  lemma {:induction false} SqueezeDropsSpaces(ws: string, t: string)
    requires forall i :: 0 <= i < |ws| ==> IsSpace(ws[i])
    requires |t| == 0 || !IsSpace(t[0])
    ensures Squeeze(ws + t, true) == Squeeze(t, false)
    decreases |ws|
  {
    if |ws| > 0 {
      assert (ws + t)[1..] == ws[1..] + t;
      SqueezeDropsSpaces(ws[1..], t);
    } else {
      assert ws + t == t;
    }
  }

  /** Collapsing keeps the text: the non-whitespace characters are those of the input, in order. */
  lemma {:induction false} CollapseKeepsText(s: string)
    ensures NonSpace(CollapseSpaces(s)) == NonSpace(s)
    decreases |s|
  {
    if |s| > 0 {
      var r := CollapseSpaces(s);
      if IsSpace(s[0]) {
        var rest := TrimStart(s);
        NonSpaceOfSpaces(s, |s| - |rest|);
        CollapseKeepsText(rest);
        assert r[1..] == CollapseSpaces(rest);
      } else {
        CollapseKeepsText(s[1..]);
        assert r[1..] == CollapseSpaces(s[1..]);
      }
    }
  }

  /** Collapsing brings in no character other than the space. */
  lemma CollapseAddsOnlySpaces(s: string, c: char)
    requires !IsSpace(c) && c !in s
    ensures c !in CollapseSpaces(s)
  {
    CollapseKeepsText(s);
    NonSpaceMembers(s, c);
    NonSpaceMembers(CollapseSpaces(s), c);
  }

  // ------------------------------------------------- normalize_name's steps

  /** Everything `normalize_name` does after taking the stem. */
  function CleanStem(stem: string): string {
    Strip(CollapseSpaces(ReplaceSeparators(StripNumberSuffix(stem))))
  }

  /** Stripping cuts a slice out of its input, so it adds no character and no pair of adjacent spaces. */
  lemma StripKeepsShape(s: string)
    ensures forall c :: c in Strip(s) ==> c in s
    ensures NoDoubleSpace(s) ==> NoDoubleSpace(Strip(s))
  {
    var a := LeadingSpaces(s);
    SliceKeepsShape(s, a, a + |Strip(s)|);
  }

  /** A slice has only characters of the whole, and no double space if the whole has none. */
  lemma SliceKeepsShape(s: string, a: nat, b: nat)
    requires a <= b <= |s|
    ensures forall c :: c in s[a..b] ==> c in s
    ensures NoDoubleSpace(s) ==> NoDoubleSpace(s[a..b])
  {
    assert forall i :: 0 <= i < b - a ==> s[a..b][i] == s[a + i];
  }

  /**
    `normalize_name(filename)`: the result has no hyphen or underscore, no
    whitespace at either end and never two whitespace characters in a row.
  */
  function NormalizeName(filename: string): (r: string)
    ensures '-' !in r && '_' !in r
    ensures |r| == 0 || (!IsSpace(r[0]) && !IsSpace(r[|r| - 1]))
    ensures NoDoubleSpace(r)
  {
    var replaced := ReplaceSeparators(StripNumberSuffix(Stem(filename)));
    assert '-' !in replaced && '_' !in replaced;
    CollapseAddsOnlySpaces(replaced, '-');
    CollapseAddsOnlySpaces(replaced, '_');
    StripKeepsShape(CollapseSpaces(replaced));
    Strip(CollapseSpaces(replaced))
  }

  /** Removing the extension comes first: `normalize_name` only ever sees the stem. */
  lemma NormalizeDropsExtension(base: string, ext: string)
    requires |base| > 0 && |ext| > 0 && '.' !in ext
    ensures NormalizeName(base + "." + ext) == CleanStem(base)
  {
    StemDropsExtension(base, ext);
  }

  // --------------------------------------------- the documented file format

  /** A word of a name as a file name spells it: not empty, no separator, no whitespace. */
  predicate Word(w: string) {
    |w| > 0 && forall i :: 0 <= i < |w| ==> !IsSep(w[i]) && !IsSpace(w[i])
  }

  predicate AllWords(ws: seq<string>) {
    forall i :: 0 <= i < |ws| ==> Word(ws[i])
  }

  /** The words of `ws` with `sep` between neighbours. */
  function Join(ws: seq<string>, sep: char): string
    decreases |ws|
  {
    if |ws| == 0 then ""
    else if |ws| == 1 then ws[0]
    else ws[0] + [sep] + Join(ws[1..], sep)
  }

  lemma {:induction false} JoinConcat(xs: seq<string>, ys: seq<string>, sep: char)
    requires |xs| > 0 && |ys| > 0
    ensures Join(xs + ys, sep) == Join(xs, sep) + [sep] + Join(ys, sep)
    decreases |xs|
  {
    assert (xs + ys)[0] == xs[0] && (xs + ys)[1..] == xs[1..] + ys;
    if |xs| > 1 {
      JoinConcat(xs[1..], ys, sep);
    }
  }

  /** A join of words starts and ends with a word character. */
  lemma {:induction false} JoinEnds(ws: seq<string>, sep: char)
    requires |ws| > 0 && AllWords(ws)
    ensures |Join(ws, sep)| > 0
    ensures Join(ws, sep)[0] == ws[0][0]
    ensures Join(ws, sep)[|Join(ws, sep)| - 1] == ws[|ws| - 1][|ws[|ws| - 1]| - 1]
    decreases |ws|
  {
    if |ws| > 1 {
      JoinEnds(ws[1..], sep);
    }
  }

  lemma ReplaceConcat(a: string, b: string)
    ensures ReplaceSeparators(a + b) == ReplaceSeparators(a) + ReplaceSeparators(b)
  {
    assert forall i :: 0 <= i < |a| ==> (a + b)[i] == a[i];
  }

  /** Turning the hyphens of a hyphen-joined name into spaces gives the space-joined name. */
  lemma {:induction false} ReplaceJoin(ws: seq<string>, sep: char)
    requires AllWords(ws) && IsSep(sep)
    ensures ReplaceSeparators(Join(ws, sep)) == Join(ws, ' ')
    decreases |ws|
  {
    if |ws| > 0 {
      assert ReplaceSeparators(ws[0]) == ws[0];
      if |ws| > 1 {
        ReplaceJoin(ws[1..], sep);
        ReplaceConcat(ws[0] + [sep], Join(ws[1..], sep));
        ReplaceConcat(ws[0], [sep]);
      }
    }
  }

  /** Collapsing keeps a leading non-whitespace character and goes on with the rest. */
  lemma CollapseStep(u: string)
    requires |u| > 0 && !IsSpace(u[0])
    ensures CollapseSpaces(u) == [u[0]] + CollapseSpaces(u[1..])
  {
  }

  /** Collapsing passes over a prefix that holds no whitespace. */
  lemma {:induction false} CollapseAfterWord(w: string, s: string)
    requires forall i :: 0 <= i < |w| ==> !IsSpace(w[i])
    ensures CollapseSpaces(w + s) == w + CollapseSpaces(s)
    decreases |w|
  {
    if |w| > 0 {
      var u := w + s;
      assert u[0] == w[0] && u[1..] == w[1..] + s;
      CollapseStep(u);
      CollapseAfterWord(w[1..], s);
      assert [w[0]] + (w[1..] + CollapseSpaces(s)) == w + CollapseSpaces(s);
    } else {
      assert w + s == s;
    }
  }

  /** Words joined by single spaces are already collapsed. */
  lemma {:induction false} CollapseJoin(ws: seq<string>)
    requires |ws| > 0 && AllWords(ws)
    ensures CollapseSpaces(Join(ws, ' ')) == Join(ws, ' ')
    decreases |ws|
  {
    if |ws| == 1 {
      CollapseAfterWord(ws[0], "");
      assert ws[0] + "" == ws[0];
    } else {
      var rest := Join(ws[1..], ' ');
      CollapseJoin(ws[1..]);
      JoinEnds(ws[1..], ' ');
      assert Join(ws, ' ') == ws[0] + (" " + rest);
      CollapseAfterWord(ws[0], " " + rest);
      assert TrimStart(" " + rest) == TrimStart(rest) == rest by {
        assert (" " + rest)[1..] == rest;
      }
    }
  }

  /** Words joined by single spaces have nothing to strip. */
  lemma StripJoin(ws: seq<string>)
    requires |ws| > 0 && AllWords(ws)
    ensures Strip(Join(ws, ' ')) == Join(ws, ' ')
  {
    JoinEnds(ws, ' ');
  }

  /** The number suffix of a photo name is removed, whatever precedes it. */
  lemma StripPhotoNumber(b: string, number: string)
    requires |number| > 0 && AllDigits(number)
    ensures StripNumberSuffix(b + "_" + number) == b
  {
    var s := b + "_" + number;
    assert s[|b| + 1..|s|] == number;
    assert NumberSuffixAt(s, |b|, |s|);
    var a, e :| NumberSuffixAt(s, a, e) && StripNumberSuffix(s) == s[..a] + s[e..];
    NumberSuffixUnique(s, a, e, |b|, |s|);
    assert s[..|b|] == b;
  }

  /** The separators of `<NAMES>_<SURNAMES>` all become single spaces between the words. */
  lemma ReplacePersonSeparators(names: seq<string>, surnames: seq<string>)
    requires |names| > 0 && |surnames| > 0 && AllWords(names) && AllWords(surnames)
    ensures ReplaceSeparators(Join(names, '-') + "_" + Join(surnames, '-')) == Join(names + surnames, ' ')
  {
    ReplaceConcat(Join(names, '-') + "_", Join(surnames, '-'));
    ReplaceConcat(Join(names, '-'), "_");
    ReplaceJoin(names, '-');
    ReplaceJoin(surnames, '-');
    JoinConcat(names, surnames, ' ');
  }

  /**
    The documented format `<NAMES-WITH-HYPHENS>_<SURNAMES-WITH-HYPHENS>_<N>.<ext>`
    normalises to the names followed by the surnames, separated by single spaces.
  */
  lemma PhotoNameFormat(names: seq<string>, surnames: seq<string>, number: string, ext: string)
    requires |names| > 0 && |surnames| > 0 && AllWords(names) && AllWords(surnames)
    requires |number| > 0 && AllDigits(number)
    requires |ext| > 0 && '.' !in ext
    ensures NormalizeName(Join(names, '-') + "_" + Join(surnames, '-') + "_" + number + "." + ext)
         == Join(names + surnames, ' ')
  {
    var person := Join(names, '-') + "_" + Join(surnames, '-');
    var base := person + "_" + number;
    var fn := Join(names, '-') + "_" + Join(surnames, '-') + "_" + number + "." + ext;
    assert fn == base + "." + ext;
    var words := Join(names + surnames, ' ');
    StemDropsExtension(base, ext);
    assert Stem(fn) == base;
    StripPhotoNumber(person, number);
    assert StripNumberSuffix(Stem(fn)) == person;
    ReplacePersonSeparators(names, surnames);
    assert AllWords(names + surnames);
    CollapseJoin(names + surnames);
    StripJoin(names + surnames);
    assert NormalizeName(fn) == Strip(CollapseSpaces(ReplaceSeparators(person)));
  }

  // ------------------------------------------------- which files are photos

  /** ASCII lower-casing, as `str.lower` does on ASCII letters. */
  function AsciiLower(c: char): (d: char)
    ensures 'A' <= c <= 'Z' ==> d as int == c as int + 32
    ensures !('A' <= c <= 'Z') ==> d == c
  {
    if 'A' <= c <= 'Z' then (c as int + 32) as char else c
  }

  function Lower(s: string): (r: string)
    ensures |r| == |s|
    ensures forall i :: 0 <= i < |s| ==> r[i] == AsciiLower(s[i])
    decreases |s|
  {
    if |s| == 0 then "" else [AsciiLower(s[0])] + Lower(s[1..])
  }

  predicate EndsWith(s: string, suffix: string) {
    |suffix| <= |s| && s[|s| - |suffix|..] == suffix
  }

  /** `fn.lower().endswith(('.jpg', '.jpeg', '.png'))`. */
  predicate IsImageFile(fn: string) {
    var l := Lower(fn);
    EndsWith(l, ".jpg") || EndsWith(l, ".jpeg") || EndsWith(l, ".png")
  }

  /** Two names that differ only in the case of ASCII letters. */
  predicate SameIgnoringCase(a: string, b: string) {
    |a| == |b| && forall i :: 0 <= i < |a| ==> AsciiLower(a[i]) == AsciiLower(b[i])
  }

  /** The filter does not care about case. */
  lemma ImageFileIgnoresCase(a: string, b: string)
    requires SameIgnoringCase(a, b)
    ensures IsImageFile(a) <==> IsImageFile(b)
  {
    assert Lower(a) == Lower(b);
  }

  lemma LowerConcat(a: string, b: string)
    ensures Lower(a + b) == Lower(a) + Lower(b)
  {
    assert forall i :: 0 <= i < |a| ==> (a + b)[i] == a[i];
  }

  /**
    When neither `y` nor `z` holds a dot, `x.y` ends with `.z` exactly when
    `y` and `z` are the same text.
  */
  lemma DotSuffix(x: string, y: string, z: string)
    requires '.' !in y && '.' !in z
    ensures EndsWith(x + "." + y, "." + z) <==> y == z
  {
    var s := x + "." + y;
    var t := "." + z;
    if |z| == |y| {
      assert s[|s| - |t|..] == "." + y;
      assert ("." + y)[1..] == y && t[1..] == z;
    } else if |z| > |y| {
      if |t| <= |s| {
        var j := |z| - |y|;
        assert s[|s| - |t|..][j] == s[|s| - |y| - 1] == '.';
        assert t[j] == z[j - 1];
      }
    } else {
      assert s[|s| - |t|..][0] == s[|s| - |t|] == y[|y| - |z| - 1];
    }
  }

  lemma LowerDotted(base: string, ext: string)
    ensures Lower(base + "." + ext) == Lower(base) + "." + Lower(ext)
  {
    LowerConcat(base + ".", ext);
    LowerConcat(base, ".");
  }

  /** Lower-casing creates no dot. */
  lemma LowerKeepsDotFree(s: string)
    requires '.' !in s
    ensures '.' !in Lower(s)
  {
  }

  /** The three suffix tests on a lower-cased dotted name, in terms of its lower-cased extension. */
  lemma DottedImageSuffix(lb: string, le: string)
    requires '.' !in le
    ensures EndsWith(lb + "." + le, ".jpg") || EndsWith(lb + "." + le, ".jpeg") || EndsWith(lb + "." + le, ".png")
        <==> le in {"jpg", "jpeg", "png"}
  {
    assert ".jpg" == "." + "jpg" && ".jpeg" == "." + "jpeg" && ".png" == "." + "png";
    DotSuffix(lb, le, "jpg");
    DotSuffix(lb, le, "jpeg");
    DotSuffix(lb, le, "png");
  }

  /**
    A file with a dotted extension is taken exactly when its extension,
    ignoring case, is `jpg`, `jpeg` or `png`.
  */
  lemma ImageFileByExtension(base: string, ext: string)
    requires '.' !in ext
    ensures IsImageFile(base + "." + ext) <==> Lower(ext) in {"jpg", "jpeg", "png"}
  {
    LowerKeepsDotFree(ext);
    LowerDotted(base, ext);
    DottedImageSuffix(Lower(base), Lower(ext));
  }
}
