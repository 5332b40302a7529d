/** The two string expressions of jpg2tiff.py: the output name,
    `basename.replace('.jpg', '_mask.tiff')`, and the input filter,
    `filename.lower().endswith(('.jpg', '.jpeg'))`. */
module Naming {

  /** The text the output name replaces, and what replaces it. */
  const Pattern: string := ".jpg"
  const Replacement: string := "_mask.tiff"

  /** ".jpg" occurs in s starting at position k (case-sensitive), written
      character by character. */
  predicate OccursAt(s: string, k: int) {
    0 <= k && k + 4 <= |s| && s[k] == '.' && s[k + 1] == 'j' && s[k + 2] == 'p' && s[k + 3] == 'g'
  }

  predicate ContainsPattern(s: string) {
    exists k :: 0 <= k <= |s| && OccursAt(s, k)
  }

  /** `s.replace('.jpg', '_mask.tiff')`: scanning from the left, every
      occurrence of ".jpg" that does not overlap one already replaced becomes
      "_mask.tiff". */
  function OutputName(s: string): (r: string)
    ensures |r| >= |s|
    decreases |s|
  {
    if |s| < |Pattern| then s
    else if OccursAt(s, 0) then Replacement + OutputName(s[|Pattern|..])
    else [s[0]] + OutputName(s[1..])
  }

  /** `c.lower()` for one character, on the ASCII letters. */
  function LowerChar(c: char): (l: char)
    ensures 'A' <= c <= 'Z' ==> l as int == c as int + 32
    ensures !('A' <= c <= 'Z') ==> l == c
  {
    if 'A' <= c <= 'Z' then (c as int + 32) as char else c
  }

  function Lower(s: string): (l: string)
    ensures |l| == |s|
    ensures forall i :: 0 <= i < |s| ==> l[i] == LowerChar(s[i])
  {
    seq(|s|, i requires 0 <= i < |s| => LowerChar(s[i]))
  }

  predicate EndsWith(s: string, suffix: string) {
    |suffix| <= |s| && s[|s| - |suffix|..] == suffix
  }

  /** The input filter of the batch loop. */
  predicate Selected(name: string) {
    EndsWith(Lower(name), ".jpg") || EndsWith(Lower(name), ".jpeg")
  }

  // The output name

  /** OccursAt is the slice test `s[k:k+4] == '.jpg'`. */
  lemma OccursAtIsSlice(s: string, k: int)
    requires 0 <= k && k + |Pattern| <= |s|
    ensures OccursAt(s, k) <==> s[k..k + |Pattern|] == Pattern
  {
    var w := s[k..k + |Pattern|];
    assert w[0] == s[k] && w[1] == s[k + 1] && w[2] == s[k + 2] && w[3] == s[k + 3];
  }

  /** When ".jpg" does not start a string, the string holds ".jpg" exactly
      when its tail does. */
  lemma ContainsPastFirst(s: string)
    requires |s| > 0 && !OccursAt(s, 0)
    ensures ContainsPattern(s) <==> ContainsPattern(s[1..])
  {
    var t := s[1..];
    if ContainsPattern(s) {
      var k :| 0 <= k <= |s| && OccursAt(s, k);
      assert OccursAt(t, k - 1);
    }
    if ContainsPattern(t) {
      var k :| 0 <= k <= |t| && OccursAt(t, k);
      assert OccursAt(s, k + 1);
    }
  }

  /** The output name is the input name exactly when the name holds no
      ".jpg"; otherwise it is strictly longer. */
  lemma {:induction false} OutputNameUnchangedIff(s: string)
    ensures OutputName(s) == s <==> !ContainsPattern(s)
    ensures ContainsPattern(s) ==> |OutputName(s)| > |s|
    decreases |s|
  {
    if |s| < |Pattern| {
    } else if OccursAt(s, 0) {
      assert |OutputName(s)| == |Replacement| + |OutputName(s[|Pattern|..])|;
    } else {
      var t := s[1..];
      OutputNameUnchangedIff(t);
      ContainsPastFirst(s);
      assert OutputName(s) == [s[0]] + OutputName(t);
      if OutputName(t) == t {
        assert OutputName(s) == [s[0]] + t == s;
      }
    }
  }

  /** The split holds over a + b when ".jpg" starts a, given that it holds
      past that occurrence. */
  lemma ReplaceStep(a: string, b: string)
    requires OccursAt(a, 0)
    requires OutputName(a[|Pattern|..] + b) == OutputName(a[|Pattern|..]) + OutputName(b)
    ensures OutputName(a + b) == OutputName(a) + OutputName(b)
  {
    assert OccursAt(a + b, 0);
    DropOfConcat(a, b, |Pattern|);
    ConcatAssociative(Replacement, OutputName(a[|Pattern|..]), OutputName(b));
  }

  /** No ".jpg" starts a + b when a is not empty, does not start with ".jpg",
      and b starts with '.': that '.' lies too early for a ".jpg" at the
      front. */
  lemma NoPatternAcrossDot(a: string, b: string)
    requires |a| > 0 && !OccursAt(a, 0) && |b| > 0 && b[0] == '.'
    ensures !OccursAt(a + b, 0)
  {
    var ab := a + b;
    if |a| >= |Pattern| {
      assert ab[0] == a[0] && ab[1] == a[1] && ab[2] == a[2] && ab[3] == a[3];
    } else if |ab| >= |Pattern| {
      assert ab[|a|] == '.';
    }
  }

  /** A name shorter than ".jpg" is its own output name. */
  lemma ShortNameKept(a: string)
    requires |a| < |Pattern|
    ensures OutputName(a) == a
  {
  }

  /** A non-empty string is its first character followed by the rest. */
  lemma HeadTail(a: string)
    requires |a| > 0
    ensures a == [a[0]] + a[1..]
  {
  }

  /** Dropping a prefix of a from a + b drops it from a. */
  lemma DropOfConcat(a: string, b: string, n: nat)
    requires n <= |a|
    ensures (a + b)[n..] == a[n..] + b
  {
  }

  /** String concatenation is associative. */
  lemma ConcatAssociative(x: string, y: string, z: string)
    ensures x + (y + z) == (x + y) + z
  {
  }

  /** The output name of a name that ".jpg" does not start is its first
      character followed by the output name of the rest. */
  lemma FirstCopied(a: string)
    requires |a| > 0 && !OccursAt(a, 0)
    ensures OutputName(a) == [a[0]] + OutputName(a[1..])
  {
    if |a| < |Pattern| {
      ShortNameKept(a);
      ShortNameKept(a[1..]);
      HeadTail(a);
    }
  }

  /** The split holds over a + b when a does not start with ".jpg" and b
      starts with '.', given that it holds past the first character. */
  lemma CopyStep(a: string, b: string)
    requires |a| > 0 && !OccursAt(a, 0) && |b| > 0 && b[0] == '.'
    requires OutputName(a[1..] + b) == OutputName(a[1..]) + OutputName(b)
    ensures OutputName(a + b) == OutputName(a) + OutputName(b)
  {
    NoPatternAcrossDot(a, b);
    FirstCopied(a + b);
    DropOfConcat(a, b, 1);
    FirstCopied(a);
    ConcatAssociative([a[0]], OutputName(a[1..]), OutputName(b));
  }

  /** Replacing is done piece by piece across a boundary at a '.': no
      occurrence of ".jpg" can straddle it, since '.' occurs in ".jpg" only
      at its start. */
  lemma {:induction false} OutputNameSplitAtDot(a: string, b: string)
    requires |b| > 0 && b[0] == '.'
    ensures OutputName(a + b) == OutputName(a) + OutputName(b)
    decreases |a|
  {
    if |a| == 0 {
      assert a + b == b;
    } else if OccursAt(a, 0) {
      OutputNameSplitAtDot(a[|Pattern|..], b);
      ReplaceStep(a, b);
    } else {
      OutputNameSplitAtDot(a[1..], b);
      CopyStep(a, b);
    }
  }

  /** A replacement at the front of a name puts '_' first. */
  lemma ReplacedStartsWithUnderscore(t: string)
    requires |t| >= |Pattern| && OccursAt(t, 0)
    ensures |OutputName(t)| > 0 && OutputName(t)[0] == '_'
  {
  }

  /** An output name that does not start with '_' starts with the input's
      first character, copied. */
  lemma FrontCopied(t: string)
    requires |OutputName(t)| > 0 && OutputName(t)[0] != '_'
    ensures |t| > 0 && t[0] == OutputName(t)[0]
    ensures |t| >= |Pattern| ==> OutputName(t) == [t[0]] + OutputName(t[1..])
    ensures |t| < |Pattern| ==> OutputName(t) == t
  {
    if |t| >= |Pattern| && OccursAt(t, 0) {
      ReplacedStartsWithUnderscore(t);
      assert false;
    }
  }

  /** An output name that starts with "jpg" comes from an input name that
      starts with "jpg". */
  lemma JpgFrontKept(t: string)
    requires |OutputName(t)| >= 3
    requires OutputName(t)[0] == 'j' && OutputName(t)[1] == 'p' && OutputName(t)[2] == 'g'
    ensures |t| >= 3 && t[0] == 'j' && t[1] == 'p' && t[2] == 'g'
  {
    FrontCopied(t);
    if |t| >= |Pattern| {
      var t1 := t[1..];
      assert OutputName(t1)[0] == 'p' && OutputName(t1)[1] == 'g';
      FrontCopied(t1);
      if |t1| >= |Pattern| {
        var t2 := t1[1..];
        assert OutputName(t2)[0] == 'g';
        FrontCopied(t2);
      }
    }
  }

  /** No ".jpg" starts inside the replacement text: its only '.' is followed
      by 't'. */
  lemma NoPatternStartsInReplacement(x: string, k: int)
    requires 0 <= k < |Replacement|
    ensures !OccursAt(Replacement + x, k)
  {
    var y := Replacement + x;
    if k + 1 < |Replacement| {
      assert y[k] == Replacement[k] && y[k + 1] == Replacement[k + 1];
    } else {
      assert y[k] == Replacement[k];
    }
  }

  /** Putting the replacement text in front of a text without ".jpg" makes no
      ".jpg". */
  lemma ReplacementAddsNoPattern(x: string)
    requires !ContainsPattern(x)
    ensures !ContainsPattern(Replacement + x)
  {
    var y := Replacement + x;
    forall k | 0 <= k <= |y|
      ensures !OccursAt(y, k)
    {
      if k < |Replacement| {
        NoPatternStartsInReplacement(x, k);
      } else {
        assert OccursAt(y, k) ==> OccursAt(x, k - |Replacement|);
      }
    }
  }

  /** A copied first character does not start a ".jpg" in the output name:
      the input would have started with ".jpg" too. */
  lemma NoPatternAtFront(c: char, t: string)
    requires |t| >= |Pattern| - 1 && !OccursAt([c] + t, 0)
    ensures !OccursAt([c] + OutputName(t), 0)
  {
    var r := OutputName(t);
    if c == '.' && |r| >= 3 && r[0] == 'j' && r[1] == 'p' && r[2] == 'g' {
      JpgFrontKept(t);
      assert false;
    }
  }

  /** An occurrence in [c] + r past the front is one in r. */
  lemma PatternPastFront(c: char, r: string)
    requires ContainsPattern([c] + r) && !OccursAt([c] + r, 0)
    ensures ContainsPattern(r)
  {
    var y := [c] + r;
    var k :| 0 <= k <= |y| && OccursAt(y, k);
    assert OccursAt(r, k - 1);
  }

  /** No ".jpg" is left in an output name. */
  lemma {:induction false} OutputNameHasNoPattern(s: string)
    ensures !ContainsPattern(OutputName(s))
    decreases |s|
  {
    if |s| < |Pattern| {
    } else if OccursAt(s, 0) {
      OutputNameHasNoPattern(s[|Pattern|..]);
      ReplacementAddsNoPattern(OutputName(s[|Pattern|..]));
    } else {
      var t := s[1..];
      OutputNameHasNoPattern(t);
      assert OutputName(s) == [s[0]] + OutputName(t);
      assert s == [s[0]] + t;
      NoPatternAtFront(s[0], t);
      if ContainsPattern(OutputName(s)) {
        PatternPastFront(s[0], OutputName(t));
        assert false;
      }
    }
  }

  /** Renaming an output name again changes nothing. */
  lemma OutputNameIdempotent(s: string)
    ensures OutputName(OutputName(s)) == OutputName(s)
  {
    OutputNameHasNoPattern(s);
    OutputNameUnchangedIff(OutputName(s));
  }

  /** A name ending in exactly ".jpg" has that ending replaced by
      "_mask.tiff"; the rest of the name is rewritten on its own. */
  lemma JpgEndingReplaced(stem: string)
    ensures OutputName(stem + ".jpg") == OutputName(stem) + "_mask.tiff"
    ensures !ContainsPattern(stem) ==> OutputName(stem + ".jpg") == stem + "_mask.tiff"
  {
    OutputNameSplitAtDot(stem, ".jpg");
    OutputNameUnchangedIff(stem);
    assert OccursAt(".jpg", 0);
    assert OutputName(".jpg") == Replacement + OutputName([]);
  }

  /** The other endings the filter accepts hold no ".jpg". */
  lemma OtherEndingHasNoPattern(ext: string)
    requires ext == ".jpeg" || ext == ".JPG" || ext == ".JPEG" || ext == ".Jpg"
    ensures !ContainsPattern(ext)
  {
    forall k | 0 <= k <= |ext| ensures !OccursAt(ext, k) {
      if k == 0 {
        assert ext[1] != 'j' || ext[3] != 'g';
      } else if k + |Pattern| <= |ext| {
        assert ext[k] != '.';
      }
    }
  }

  /** The other endings the filter accepts are kept as they are, so a name
      without ".jpg" before them maps to itself. */
  lemma OtherEndingsKept(stem: string, ext: string)
    requires ext == ".jpeg" || ext == ".JPG" || ext == ".JPEG" || ext == ".Jpg"
    ensures OutputName(stem + ext) == OutputName(stem) + ext
    ensures !ContainsPattern(stem) ==> OutputName(stem + ext) == stem + ext
  {
    OutputNameSplitAtDot(stem, ext);
    OutputNameUnchangedIff(stem);
    OtherEndingHasNoPattern(ext);
    OutputNameUnchangedIff(ext);
  }

  /** A selected name that holds no ".jpg" (a ".jpeg" or upper-case ".JPG"
      name, for one) keeps its name, so written to the folder it was read
      from it replaces its own input file. */
  lemma SelectedWithoutPatternKeepsName(name: string)
    requires Selected(name) && !ContainsPattern(name)
    ensures OutputName(name) == name
    ensures Selected(OutputName(name))
  {
    OutputNameUnchangedIff(name);
  }

  // The input filter

  /** The filter ignores the case of the ASCII letters. */
  lemma SelectedIgnoresCase(name: string)
    ensures Selected(Lower(name)) == Selected(name)
  {
    var l := Lower(name);
    assert Lower(l) == l;
  }

  /** Some names the filter takes. */
  lemma SelectedExamples()
    ensures Selected("a.jpg") && Selected("a.JPG") && Selected("a.jpeg") && Selected("a.JpEg")
  {
    assert Lower("a.jpg") == "a.jpg";
    assert Lower("a.JPG") == "a.jpg";
    assert Lower("a.jpeg") == "a.jpeg";
    assert Lower("a.JpEg") == "a.jpeg";
  }

  /** Some names the filter passes over. */
  lemma RejectedExamples()
    ensures !Selected("a.png") && !Selected("jpg") && !Selected("a.tiff")
  {
    assert Lower("a.png") == "a.png";
    assert Lower("jpg") == "jpg";
    assert Lower("a.tiff") == "a.tiff";
  }

  /** A name holding ".jpg" but ending otherwise is passed over. */
  lemma InnerJpgRejected()
    ensures !Selected("a.jpg.png")
  {
    assert Lower("a.jpg.png") == "a.jpg.png";
  }
}
