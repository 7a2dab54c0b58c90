/**
 The contact form's input validator (ContactForm.validateInput): required
 fields, the e-mail shape, length caps and three spam heuristics over the
 lowercased text "name subject message". Each regular expression of the
 validator is written out as a predicate over strings; a `char` stands for
 one UTF-16 code unit.
 */
module Validation {

  datatype Option<T> = None | Some(value: T)

  /** The submitted form, field by field; None when the form has no input of that name. */
  datatype FormData = FormData(name: Option<string>, email: Option<string>,
                               subject: Option<string>, message: Option<string>)

  const MaxNameLength: nat := 100
  const MaxSubjectLength: nat := 200
  const MaxMessageLength: nat := 2000

  /** At most this many URL matches are tolerated. */
  const MaxUrls: nat := 1

  /** A character followed by at least this many copies of itself is spam. */
  const RepeatRunLength: nat := 11

  const Keywords: seq<string> :=
    ["viagra", "casino", "lottery", "winner", "congratulations", "click here", "free money"]

  // ---------------------------------------------------------------------------
  // Character classes

  /** ECMAScript LineTerminator: what `.` does not match. */
  predicate IsLineTerminator(c: char) {
    c == '\n' || c == '\r' || c == '\U{2028}' || c == '\U{2029}'
  }

  /** ECMAScript `\s`: WhiteSpace and LineTerminator code points. */
  predicate IsSpace(c: char) {
    IsLineTerminator(c) || c == '\t' || c == '\U{B}' || c == '\U{C}' || c == ' ' ||
    c == '\U{A0}' || c == '\U{1680}' || ('\U{2000}' <= c <= '\U{200A}') ||
    c == '\U{202F}' || c == '\U{205F}' || c == '\U{3000}' || c == '\U{FEFF}'
  }

  /** ECMAScript `\w`. */
  predicate IsWordChar(c: char) {
    ('a' <= c <= 'z') || ('A' <= c <= 'Z') || ('0' <= c <= '9') || c == '_'
  }

  function LowerChar(c: char): (r: char)
    ensures !('A' <= r <= 'Z')
    ensures IsWordChar(r) <==> IsWordChar(c)
    ensures IsSpace(r) <==> IsSpace(c)
    ensures IsLineTerminator(r) <==> IsLineTerminator(c)
  {
    if 'A' <= c <= 'Z' then (c as int + 32) as char else c
  }

  /** String.prototype.toLowerCase, on ASCII letters. */
  function LowerText(s: string): string {
    seq(|s|, k requires 0 <= k < |s| => LowerChar(s[k]))
  }

  /**
   Lowercasing works piece by piece, leaves no upper-case ASCII letter and
   changes nothing the second time.
   */
  lemma LowerTextLaws(a: string, b: string)
    ensures LowerText(a + b) == LowerText(a) + LowerText(b)
    ensures forall k | 0 <= k < |LowerText(a)| :: !('A' <= LowerText(a)[k] <= 'Z')
    ensures LowerText(LowerText(a)) == LowerText(a)
  {
  }

  // ---------------------------------------------------------------------------
  // Required fields

  /** JavaScript truthiness of a form value: present and not the empty string. */
  predicate Filled(f: Option<string>) {
    f.Some? && f.value != ""
  }

  // ---------------------------------------------------------------------------
  // E-mail: /^[^\s@]+@[^\s@]+\.[^\s@]+$/

  /** `[^\s@]` */
  predicate IsEmailChar(c: char) {
    !IsSpace(c) && c != '@'
  }

  predicate AllEmailChars(s: string) {
    forall k | 0 <= k < |s| :: IsEmailChar(s[k])
  }

  /** s is local "@" domain "." tld, with the '@' at i and the '.' at j, all three parts non-empty. */
  predicate EmailSplit(s: string, i: int, j: int) {
    0 < i && i + 1 < j && j + 1 < |s| &&
    s[i] == '@' && s[j] == '.' &&
    AllEmailChars(s[..i]) && AllEmailChars(s[i + 1..j]) && AllEmailChars(s[j + 1..])
  }

  /** The language of the e-mail pattern: some split of s into the pattern's three parts. */
  predicate EmailMatches(s: string) {
    exists i, j | 0 < i < |s| && 0 < j < |s| :: EmailSplit(s, i, j)
  }

  /**
   The same shape described without the pattern: no whitespace, exactly one '@'
   (not first), and a '.' after it with text on both sides.
   */
  ghost predicate EmailPlain(s: string) {
    (forall k | 0 <= k < |s| :: !IsSpace(s[k])) &&
    exists i | 0 < i < |s| ::
      s[i] == '@' &&
      (forall k | 0 <= k < |s| && k != i :: s[k] != '@') &&
      (exists j | i + 1 < j < |s| - 1 :: s[j] == '.')
  }

  lemma EmailMatchesIff(s: string)
    ensures EmailMatches(s) <==> EmailPlain(s)
  {
    if EmailMatches(s) {
      var i, j :| 0 < i < |s| && 0 < j < |s| && EmailSplit(s, i, j);
      forall k | 0 <= k < |s| && k != i
        ensures !IsSpace(s[k]) && s[k] != '@'
      {
        if k < i {
          assert s[k] == s[..i][k];
        } else if k < j {
          assert s[k] == s[i + 1..j][k - i - 1];
        } else if k > j {
          assert s[k] == s[j + 1..][k - j - 1];
        }
      }
      assert s[i] == '@';
    }
    if EmailPlain(s) {
      var i :| 0 < i < |s| && s[i] == '@' &&
        (forall k | 0 <= k < |s| && k != i :: s[k] != '@') &&
        (exists j | i + 1 < j < |s| - 1 :: s[j] == '.');
      var j :| i + 1 < j < |s| - 1 && s[j] == '.';
      assert EmailSplit(s, i, j);
    }
  }

  // ---------------------------------------------------------------------------
  // URLs: fullText.match(/https?:\/\/[^\s]+/gi)

  /** A match of the URL pattern starts at q: "http://" or "https://" and at least one more non-space character. */
  predicate MatchAt(t: string, q: int) {
    0 <= q &&
    ((q + 7 < |t| && t[q..q + 7] == "http://" && !IsSpace(t[q + 7])) ||
     (q + 8 < |t| && t[q..q + 8] == "https://" && !IsSpace(t[q + 8])))
  }

  /** The end of the whitespace-free run that starts at q: where the greedy `[^\s]+` stops. */
  function RunEnd(t: string, q: nat): (e: nat)
    requires q <= |t|
    ensures q <= e <= |t|
    ensures forall k | q <= k < e :: !IsSpace(t[k])
    ensures e < |t| ==> IsSpace(t[e])
    decreases |t| - q
  {
    if q == |t| || IsSpace(t[q]) then q else RunEnd(t, q + 1)
  }

  lemma MatchAtStartsRun(t: string, q: nat)
    requires q <= |t| && MatchAt(t, q)
    ensures RunEnd(t, q) > q
  {
    assert t[q] == t[q..q + 7][0];
  }

  /**
   The number of matches a global match finds from position q on: at each
   position it either matches, and resumes where the match ended, or moves on
   by one.
   */
  function UrlMatchesFrom(t: string, q: nat): nat
    requires q <= |t|
    decreases |t| - q
  {
    if q == |t| then 0
    else if MatchAt(t, q) then
      MatchAtStartsRun(t, q);
      1 + UrlMatchesFrom(t, RunEnd(t, q))
    else UrlMatchesFrom(t, q + 1)
  }

  /** The length of the array fullText.match(...) returns (0 for null). */
  function UrlMatchCount(t: string): nat {
    UrlMatchesFrom(t, 0)
  }

  /** Two match starts at p1 < p2, both at or after q, with whitespace at w between them. */
  predicate UrlsApart(t: string, q: int, p1: int, w: int, p2: int) {
    q <= p1 < w < p2 < |t| && MatchAt(t, p1) && IsSpace(t[w]) && MatchAt(t, p2)
  }

  /** Two URL-like words in different whitespace-separated runs of t. */
  ghost predicate TwoSeparateUrls(t: string) {
    exists p1, w, p2 :: UrlsApart(t, 0, p1, w, p2)
  }

  lemma {:induction false} UrlMatchesPositive(t: string, q: nat)
    requires q <= |t|
    ensures UrlMatchesFrom(t, q) > 0 <==> exists p | q <= p < |t| :: MatchAt(t, p)
    decreases |t| - q
  {
    if q < |t| && !MatchAt(t, q) {
      UrlMatchesPositive(t, q + 1);
    }
  }

  lemma {:induction false} UrlMatchesTwo(t: string, q: nat)
    requires q <= |t|
    ensures UrlMatchesFrom(t, q) > 1 <==> exists p1, w, p2 :: UrlsApart(t, q, p1, w, p2)
    decreases |t| - q
  {
    if q == |t| {
    } else if MatchAt(t, q) {
      MatchAtStartsRun(t, q);
      var e := RunEnd(t, q);
      UrlMatchesPositive(t, e);
      if UrlMatchesFrom(t, q) > 1 {
        var p2 :| e <= p2 < |t| && MatchAt(t, p2);
        assert t[p2] == t[p2..p2 + 7][0];
        assert UrlsApart(t, q, q, e, p2);
      }
      if exists p1, w, p2 :: UrlsApart(t, q, p1, w, p2) {
        var p1, w, p2 :| UrlsApart(t, q, p1, w, p2);
        assert e <= w;
        assert e <= p2 < |t| && MatchAt(t, p2);
      }
    } else {
      UrlMatchesTwo(t, q + 1);
      if exists p1, w, p2 :: UrlsApart(t, q, p1, w, p2) {
        var p1, w, p2 :| UrlsApart(t, q, p1, w, p2);
        assert UrlsApart(t, q + 1, p1, w, p2);
      }
      var next := q + 1;
      if exists p1, w, p2 :: UrlsApart(t, next, p1, w, p2) {
        var p1, w, p2 :| UrlsApart(t, next, p1, w, p2);
        assert UrlsApart(t, q, p1, w, p2);
      }
    }
  }

  /** More than one URL match exactly when two URL-like words are separated by whitespace. */
  lemma UrlCountIff(t: string)
    ensures UrlMatchCount(t) > MaxUrls <==> TwoSeparateUrls(t)
  {
    UrlMatchesTwo(t, 0);
  }

  /** Text without a ':' has no URL match. */
  lemma NoColonNoUrl(t: string)
    requires ':' !in t
    ensures UrlMatchCount(t) == 0
  {
    UrlMatchesPositive(t, 0);
    forall p | 0 <= p < |t|
      ensures !MatchAt(t, p)
    {
      MatchNeedsColon(t, p);
    }
  }

  /** Where a match starts, a ':' follows within the next six characters, none of them whitespace. */
  lemma MatchNeedsColon(t: string, p: int)
    ensures MatchAt(t, p) ==>
      exists c | p < c < p + 6 && c < |t| :: t[c] == ':' && forall k | p <= k <= c :: !IsSpace(t[k])
  {
    if MatchAt(t, p) && p + 7 < |t| && t[p..p + 7] == "http://" {
      forall k | p <= k <= p + 4 ensures !IsSpace(t[k]) { assert t[k] == t[p..p + 7][k - p]; }
      assert t[p + 4] == t[p..p + 7][4];
    } else if MatchAt(t, p) {
      forall k | p <= k <= p + 5 ensures !IsSpace(t[k]) { assert t[k] == t[p..p + 8][k - p]; }
      assert t[p + 5] == t[p..p + 8][5];
    }
  }

  /**
   A single whitespace-free word, amid text without any ':', yields at most one
   URL match, whatever the word holds.
   */
  lemma OneWordOneUrl(pre: string, word: string, post: string)
    requires ':' !in pre && ':' !in post
    requires forall c | c in word :: !IsSpace(c)
    ensures UrlMatchCount(pre + word + post) <= MaxUrls
  {
    var t := pre + word + post;
    UrlCountIff(t);
    forall p1, w, p2 | 0 <= p1 < w < p2 < |t| && MatchAt(t, p1) && MatchAt(t, p2)
      ensures !IsSpace(t[w])
    {
      MatchNeedsColon(t, p1);
      MatchNeedsColon(t, p2);
      var c1 :| p1 < c1 < p1 + 6 && c1 < |t| && t[c1] == ':' && forall k | p1 <= k <= c1 :: !IsSpace(t[k]);
      var c2 :| p2 < c2 < p2 + 6 && c2 < |t| && t[c2] == ':' && forall k | p2 <= k <= c2 :: !IsSpace(t[k]);
      assert |pre| <= c1 && c2 < |pre| + |word|;
      if w > c1 {
        assert t[w] == word[w - |pre|];
      }
    }
  }

  // ---------------------------------------------------------------------------
  // Keywords: /\b(viagra|casino|lottery|winner|congratulations|click here|free money)\b/gi

  /** k occurs in t at p, with a word boundary (`\b`) just before and just after it. */
  predicate KeywordAt(t: string, p: int, k: string) {
    0 <= p && p + |k| <= |t| && t[p..p + |k|] == k &&
    (p == 0 || !IsWordChar(t[p - 1])) &&
    (p + |k| == |t| || !IsWordChar(t[p + |k|]))
  }

  predicate HasSpamKeyword(t: string) {
    exists p, n | 0 <= p <= |t| && 0 <= n < |Keywords| :: KeywordAt(t, p, Keywords[n])
  }

  /**
   A keyword written in any ASCII letter case, standing as a whole word, is
   found in the lowercased text.
   */
  lemma SpamKeywordDetected(pre: string, w: string, post: string, n: nat)
    requires n < |Keywords| && LowerText(w) == Keywords[n]
    requires pre == [] || !IsWordChar(pre[|pre| - 1])
    requires post == [] || !IsWordChar(post[0])
    ensures HasSpamKeyword(LowerText(pre + w + post))
  {
    WholeWordAt(pre, w, post, Keywords[n]);
  }

  /** Lowercasing keeps a whole word whole. */
  lemma WholeWordAt(pre: string, w: string, post: string, k: string)
    requires LowerText(w) == k
    requires pre == [] || !IsWordChar(pre[|pre| - 1])
    requires post == [] || !IsWordChar(post[0])
    ensures KeywordAt(LowerText(pre + w + post), |pre|, k)
  {
    var s := pre + w + post;
    var t := LowerText(s);
    var p := |pre|;
    assert |w| == |k|;
    forall m | 0 <= m < |k|
      ensures t[p + m] == k[m]
    {
      calc {
        t[p + m];
        LowerChar(s[p + m]);
        { assert s[p + m] == w[m]; }
        LowerChar(w[m]);
        LowerText(w)[m];
      }
    }
    assert t[p..p + |k|] == k;
    if p > 0 {
      assert s[p - 1] == pre[p - 1];
    }
    if p + |k| < |t| {
      assert s[p + |k|] == post[0];
    }
  }

  /** A keyword sits at p only if each of its characters is there. */
  lemma NotKeywordAt(t: string, p: int, k: string, i: int)
    requires 0 <= i < |k|
    requires p + i < 0 || p + i >= |t| || t[p + i] != k[i]
    ensures !KeywordAt(t, p, k)
  {
    if 0 <= p && p + |k| <= |t| {
      assert t[p..p + |k|][i] == t[p + i];
    }
  }

  /**
   Each keyword holds one of 'v', 'c', 'y', 'w', 'f' (at index Marker(n)), so a
   text with none of them holds no keyword.
   */
  function Marker(n: nat): (i: nat)
    requires n < |Keywords|
    ensures i < |Keywords[n]| && Keywords[n][i] in "vcywf"
  {
    if n == 2 then 6 else 0
  }

  lemma NoKeywordWithoutMarkers(t: string)
    requires 'v' !in t && 'c' !in t && 'y' !in t && 'w' !in t && 'f' !in t
    ensures !HasSpamKeyword(t)
  {
    forall p, n | 0 <= p <= |t| && 0 <= n < |Keywords|
      ensures !KeywordAt(t, p, Keywords[n])
    {
      var i := Marker(n);
      if p + i < |t| {
        assert t[p + i] in t;
      }
      NotKeywordAt(t, p, Keywords[n], i);
    }
  }

  /** "winners" is not the keyword "winner": there is no word boundary after the 'r'. */
  lemma WinnersIsNotSpam()
    ensures !HasSpamKeyword("winners")
  {
    var t := "winners";
    forall p, n | 0 <= p <= |t| && 0 <= n < |Keywords|
      ensures !KeywordAt(t, p, Keywords[n])
    {
      var i := Marker(n);
      if n == 3 {
        if p == 0 {
          assert IsWordChar(t[6]);
        } else {
          NotKeywordAt(t, p, Keywords[n], 0);
        }
      } else {
        if p + i < |t| {
          assert t[p + i] in "winners";
        }
        NotKeywordAt(t, p, Keywords[n], i);
      }
    }
  }

  // ---------------------------------------------------------------------------
  // Repeated characters: /(.)\1{10,}/

  /** A character other than a line terminator, then at least ten more copies of it, starting at p. */
  predicate RepeatAt(t: string, p: int) {
    0 <= p && p + RepeatRunLength <= |t| && !IsLineTerminator(t[p]) &&
    forall m | p < m < p + RepeatRunLength :: t[m] == t[p]
  }

  predicate HasRepeatRun(t: string) {
    exists p | 0 <= p < |t| :: RepeatAt(t, p)
  }

  lemma RepeatRunDetected(pre: string, c: char, n: nat, post: string)
    requires n >= RepeatRunLength && !IsLineTerminator(c)
    ensures HasRepeatRun(pre + seq(n, _ => c) + post)
  {
    var t := pre + seq(n, _ => c) + post;
    var p := |pre|;
    forall m | p <= m < p + RepeatRunLength
      ensures t[m] == c
    {
      assert t[m] == seq(n, _ => c)[m - p];
    }
    assert RepeatAt(t, p);
  }

  /** Line terminators are not matched by `.`, so a run of one of them is never spam. */
  lemma LineBreaksAreNotRepeats(c: char, n: nat)
    requires IsLineTerminator(c)
    ensures !HasRepeatRun(seq(n, _ => c))
  {
  }

  /**
   Joining two repeat-free texts with a separator that differs from its
   neighbours gives a repeat-free text: a run of eleven cannot cross it.
   */
  lemma RepeatFreeJoin(x: string, c: char, y: string)
    requires !HasRepeatRun(x) && !HasRepeatRun(y)
    requires x == [] || x[|x| - 1] != c
    requires y == [] || y[0] != c
    ensures !HasRepeatRun(x + [c] + y)
  {
    var t := x + [c] + y;
    forall p | 0 <= p < |t|
      ensures !RepeatAt(t, p)
    {
      if p + RepeatRunLength <= |x| {
        assert !RepeatAt(x, p);
        forall m | p <= m < p + RepeatRunLength ensures t[m] == x[m] { }
      } else if p > |x| && p + RepeatRunLength <= |t| {
        var q := p - |x| - 1;
        assert !RepeatAt(y, q);
        forall m | q <= m < q + RepeatRunLength ensures t[m + |x| + 1] == y[m] { }
      } else if p < |x| && p + RepeatRunLength <= |t| {
        assert t[|x|] == c && t[|x| - 1] == x[|x| - 1];
      } else if p == |x| && p + RepeatRunLength <= |t| {
        assert t[|x|] == c && t[|x| + 1] == y[0];
      }
    }
  }

  // ---------------------------------------------------------------------------
  // The suspicious-character pattern /[^\w\s@.-]/g: built, never consulted.

  predicate HasSuspiciousChar(t: string) {
    exists k | 0 <= k < |t| :: !(IsWordChar(t[k]) || IsSpace(t[k]) || t[k] == '@' || t[k] == '.' || t[k] == '-')
  }

  // ---------------------------------------------------------------------------
  // validateInput

  /** `${name} ${subject} ${message}`.toLowerCase() */
  function FullText(name: string, subject: string, message: string): string {
    LowerText(name + " " + subject + " " + message)
  }

  /** ContactForm.validateInput: the checks in the source's order, first failure wins. */
  predicate ValidateInput(d: FormData) {
    if !Filled(d.name) || !Filled(d.email) || !Filled(d.subject) || !Filled(d.message) then false
    else if !EmailMatches(d.email.value) then false
    else if |d.name.value| > MaxNameLength || |d.subject.value| > MaxSubjectLength ||
            |d.message.value| > MaxMessageLength then false
    else
      var text := FullText(d.name.value, d.subject.value, d.message.value);
      if UrlMatchCount(text) > MaxUrls then false
      else if HasSpamKeyword(text) then false
      else if HasRepeatRun(text) then false
      else true
  }

  /** What an acceptable submission is, stated without the regular expressions' scanners. */
  ghost predicate Acceptable(d: FormData) {
    Filled(d.name) && Filled(d.email) && Filled(d.subject) && Filled(d.message) &&
    EmailPlain(d.email.value) &&
    |d.name.value| <= MaxNameLength && |d.subject.value| <= MaxSubjectLength &&
    |d.message.value| <= MaxMessageLength &&
    var text := FullText(d.name.value, d.subject.value, d.message.value);
    !TwoSeparateUrls(text) && !HasSpamKeyword(text) && !HasRepeatRun(text)
  }

  /**
   validateInput accepts exactly the acceptable submissions; in particular the
   suspicious-character pattern plays no part.
   */
  lemma ValidateInputIff(d: FormData)
    ensures ValidateInput(d) <==> Acceptable(d)
  {
    if Filled(d.email) {
      EmailMatchesIff(d.email.value);
    }
    if Filled(d.name) && Filled(d.subject) && Filled(d.message) {
      UrlCountIff(FullText(d.name.value, d.subject.value, d.message.value));
    }
  }

  lemma MissingFieldRejected(d: FormData)
    requires !Filled(d.name) || !Filled(d.email) || !Filled(d.subject) || !Filled(d.message)
    ensures !ValidateInput(d)
  {
  }

  lemma TooLongRejected(d: FormData)
    requires Filled(d.name) && Filled(d.subject) && Filled(d.message)
    requires |d.name.value| > MaxNameLength || |d.subject.value| > MaxSubjectLength ||
             |d.message.value| > MaxMessageLength
    ensures !ValidateInput(d)
  {
  }

  /** An e-mail without an '@', or without a '.' after the '@', is rejected. */
  lemma MalformedEmailRejected(d: FormData)
    requires Filled(d.email)
    requires (forall k | 0 <= k < |d.email.value| :: d.email.value[k] != '@') ||
             (exists i | 0 <= i < |d.email.value| :: d.email.value[i] == '@' &&
                forall k | i < k < |d.email.value| :: d.email.value[k] != '.')
    ensures !ValidateInput(d)
  {
    EmailMatchesIff(d.email.value);
  }

  /** Two URL-like words in the combined text reject the submission. */
  lemma TwoUrlsRejected(d: FormData)
    requires Filled(d.name) && Filled(d.subject) && Filled(d.message)
    requires TwoSeparateUrls(FullText(d.name.value, d.subject.value, d.message.value))
    ensures !ValidateInput(d)
  {
    UrlCountIff(FullText(d.name.value, d.subject.value, d.message.value));
  }

  /** Sufficient conditions for acceptance, one per check, about the given strings. */
  lemma AcceptedWhen(name: string, email: string, subject: string, message: string)
    requires name != "" && email != "" && subject != "" && message != ""
    requires EmailMatches(email)
    requires |name| <= MaxNameLength && |subject| <= MaxSubjectLength && |message| <= MaxMessageLength
    requires UrlMatchCount(FullText(name, subject, message)) <= MaxUrls
    requires !HasSpamKeyword(FullText(name, subject, message))
    requires !HasRepeatRun(FullText(name, subject, message))
    ensures ValidateInput(FormData(Some(name), Some(email), Some(subject), Some(message)))
  {
  }

  /** The sample submission {Jo, jo@x.com, Hi, Hello there} passes. */
  lemma SampleAccepted()
    ensures ValidateInput(FormData(Some("Jo"), Some("jo@x.com"), Some("Hi"), Some("Hello there")))
  {
    SampleEmail();
    assert FullText("Jo", "Hi", "Hello there") == "jo hi hello there";
    SampleTextClean();
    AcceptedWhen("Jo", "jo@x.com", "Hi", "Hello there");
  }

  lemma SampleEmail()
    ensures EmailMatches("jo@x.com")
  {
    assert EmailSplit("jo@x.com", 2, 4);
  }

  lemma SampleTextClean()
    ensures UrlMatchCount("jo hi hello there") == 0
    ensures !HasSpamKeyword("jo hi hello there")
    ensures !HasRepeatRun("jo hi hello there")
  {
    NoColonNoUrl("jo hi hello there");
    NoKeywordWithoutMarkers("jo hi hello there");
    SampleTextNoRepeat();
  }

  lemma SampleTextNoRepeat()
    ensures !HasRepeatRun("jo hi hello there")
  {
    assert "jo hi hello"[1] != "jo hi hello"[0];
    RepeatFreeJoin("jo hi hello", ' ', "there");
    assert "jo hi hello" + [' '] + "there" == "jo hi hello there";
  }

  /**
   The suspicious-character pattern is not enforced: the sample with a '!',
   which that pattern matches, still passes.
   */
  lemma SuspiciousCharactersIgnored()
    ensures HasSuspiciousChar(FullText("Jo", "Hi!", "Hello there"))
    ensures ValidateInput(FormData(Some("Jo"), Some("jo@x.com"), Some("Hi!"), Some("Hello there")))
  {
    var text := "jo hi! hello there";
    SampleEmail();
    assert FullText("Jo", "Hi!", "Hello there") == text;
    assert !IsWordChar(text[5]) && !IsSpace(text[5]);
    PunctuatedTextClean();
    AcceptedWhen("Jo", "jo@x.com", "Hi!", "Hello there");
  }

  lemma PunctuatedTextClean()
    ensures UrlMatchCount("jo hi! hello there") == 0
    ensures !HasSpamKeyword("jo hi! hello there")
    ensures !HasRepeatRun("jo hi! hello there")
  {
    NoColonNoUrl("jo hi! hello there");
    NoKeywordWithoutMarkers("jo hi! hello there");
    PunctuatedTextNoRepeat();
  }

  lemma PunctuatedTextNoRepeat()
    ensures !HasRepeatRun("jo hi! hello there")
  {
    RepeatFreeJoin("jo hi!", ' ', "hello");
    assert "jo hi!" + [' '] + "hello" == "jo hi! hello";
    RepeatFreeJoin("jo hi! hello", ' ', "there");
    assert "jo hi! hello" + [' '] + "there" == "jo hi! hello there";
  }

  /** A character repeated ten times passes. */
  lemma TenRepeatsAccepted()
    ensures ValidateInput(FormData(Some("Jo"), Some("jo@x.com"), Some("Hi"), Some("aaaaaaaaaa")))
  {
    var text := "jo hi aaaaaaaaaa";
    SampleEmail();
    assert FullText("Jo", "Hi", "aaaaaaaaaa") == text;
    RepeatedTextClean();
    AcceptedWhen("Jo", "jo@x.com", "Hi", "aaaaaaaaaa");
  }

  lemma RepeatedTextClean()
    ensures UrlMatchCount("jo hi aaaaaaaaaa") == 0
    ensures !HasSpamKeyword("jo hi aaaaaaaaaa")
    ensures !HasRepeatRun("jo hi aaaaaaaaaa")
  {
    NoColonNoUrl("jo hi aaaaaaaaaa");
    NoKeywordWithoutMarkers("jo hi aaaaaaaaaa");
    RepeatedTextNoRepeat();
  }

  lemma RepeatedTextNoRepeat()
    ensures !HasRepeatRun("jo hi aaaaaaaaaa")
  {
    RepeatFreeJoin("jo hi", ' ', "aaaaaaaaaa");
    assert "jo hi" + [' '] + "aaaaaaaaaa" == "jo hi aaaaaaaaaa";
  }

  /** A single URL passes. */
  lemma OneUrlAccepted()
    ensures ValidateInput(FormData(Some("Jo"), Some("jo@x.com"), Some("Hi"), Some("http://x.io")))
  {
    var text := "jo hi http://x.io";
    SampleEmail();
    assert FullText("Jo", "Hi", "http://x.io") == text;
    UrlTextClean();
    AcceptedWhen("Jo", "jo@x.com", "Hi", "http://x.io");
  }

  lemma UrlTextClean()
    ensures UrlMatchCount("jo hi http://x.io") <= MaxUrls
    ensures !HasSpamKeyword("jo hi http://x.io")
    ensures !HasRepeatRun("jo hi http://x.io")
  {
    OneUrlText();
    NoKeywordWithoutMarkers("jo hi http://x.io");
    UrlTextNoRepeat();
  }

  lemma OneUrlText()
    ensures UrlMatchCount("jo hi http://x.io") <= MaxUrls
  {
    OneWordOneUrl("jo hi ", "http://x.io", "");
    assert "jo hi " + "http://x.io" + "" == "jo hi http://x.io";
  }

  lemma UrlTextNoRepeat()
    ensures !HasRepeatRun("jo hi http://x.io")
  {
    var url := "http://x.io";
    assert url[1] != url[0];
    RepeatFreeJoin("jo hi", ' ', url);
    assert "jo hi" + [' '] + url == "jo hi http://x.io";
  }

  /** A character repeated eleven times is rejected. */
  lemma ElevenRepeatsRejected()
    ensures !ValidateInput(FormData(Some("Jo"), Some("jo@x.com"), Some("Hi"), Some("aaaaaaaaaaa")))
  {
    var text := FullText("Jo", "Hi", "aaaaaaaaaaa");
    assert text == "jo hi " + seq(11, _ => 'a') + "";
    RepeatRunDetected("jo hi ", 'a', 11, "");
  }

  /** "http://" and a non-space character form a match. */
  lemma HttpMatch(pre: string, rest: string)
    requires rest != [] && !IsSpace(rest[0])
    ensures MatchAt(pre + "http://" + rest, |pre|)
  {
    var t := pre + "http://" + rest;
    assert t[|pre|..|pre| + 7] == "http://";
    assert t[|pre| + 7] == rest[0];
  }

  /** Two URLs are rejected. */
  lemma TwoUrlsInMessageRejected()
    ensures !ValidateInput(FormData(Some("Jo"), Some("jo@x.com"), Some("Hi"), Some("http://x.io http://y.io")))
  {
    var text := "jo hi " + "http://" + ("x.io " + "http://" + "y.io");
    assert FullText("Jo", "Hi", "http://x.io http://y.io") == text;
    HttpMatch("jo hi ", "x.io " + "http://" + "y.io");
    assert text == ("jo hi " + "http://" + "x.io ") + "http://" + "y.io";
    HttpMatch("jo hi " + "http://" + "x.io ", "y.io");
    assert UrlsApart(text, 0, 6, 17, 18);
    UrlCountIff(text);
  }
}
