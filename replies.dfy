/** `parse_replies` (scripts/monitor.py): the windowed scanner that turns a rendered text
    snapshot into reply records. A line containing "Replying to" marks a reply. The
    author is looked up in the 10 lines before it, the text in the 9 lines after it and
    the like count in the 14 lines after it. Records are deduplicated on (author, text). */
module Replies {
  import opened Wrappers
  import opened Text
  import opened Sequences
  import opened Questions

  /** One extracted reply: the dictionary `parse_replies` appends. */
  datatype Reply = Reply(author: string, text: string, likes: nat, isQuestion: bool)

  /** The substring that marks a reply line, and that disqualifies a text. */
  const Marker := "Replying to"
  /** The prefix of a line that carries a reply's text. */
  const TextPrefix := "- text:"
  /** The prefix that disqualifies a line as the engagement-counter line. */
  const ListPrefix := "- "

  /** Lines looked at before a marker for the author: `range(max(0, i - 10), i)`. */
  const AuthorWindow := 10
  /** Lines looked at after a marker for the text: `range(i + 1, min(n, i + 10))`. */
  const TextWindow := 10
  /** Lines looked at after a marker for the like count: `range(i + 1, min(n, i + 15))`. */
  const LikesWindow := 15

  function Min(a: int, b: int): int {
    if a < b then a else b
  }

  function Max(a: int, b: int): int {
    if a < b then b else a
  }

  predicate IsMarkerLine(line: string) {
    Contains(Strip(line), Marker)
  }

  // ---------------------------------------------------------------------------
  // What a single line contributes to a record

  /** The author a line names: its first `@\w+` match, prefixed with "@", unless that
      handle is the thread owner's (compared case-sensitively). */
  function AuthorOf(line: string, owner: string): Option<string> {
    match FirstHandle(line)
    case Some(h) => if h != owner then Some("@" + h) else None
    case None => None
  }

  function AuthorPick(owner: string): string -> Option<string> {
    line => AuthorOf(line, owner)
  }

  /** What a line yields as reply text: for a stripped line starting with `- text:`, every
      `- text:` removed and the rest stripped, if that is non-empty and does not contain
      "Replying to". */
  function TextOf(line: string): Option<string> {
    var content := Strip(line);
    if StartsWith(content, TextPrefix) && IsAcceptableText(CleanText(content)) then
      Some(CleanText(content))
    else None
  }

  /** `content.replace("- text:", "").strip()` */
  function CleanText(content: string): string {
    Strip(RemoveAll(content, TextPrefix))
  }

  /** A cleaned text counts when it is non-empty and does not contain "Replying to". */
  predicate IsAcceptableText(t: string) {
    t != [] && !Contains(t, Marker)
  }

  /** What a line yields as like count: for a stripped line with at least three digit
      runs that does not start with "- ", the value of its first digit run. */
  function LikesOf(line: string): Option<nat> {
    var engagement := Strip(line);
    if IsEngagementLine(engagement) then Some(LikesValue(DigitRuns(engagement)[0])) else None
  }

  /** The like count an engagement line sets from its first number: `int()` of it, or the
      0 kept when `int()` raises and the `except` passes. */
  function LikesValue(run: string): nat {
    match ParseInt(run)
    case Some(v) => v
    case None => 0
  }

  /** A stripped line with at least three digit runs that does not start with "- ". */
  predicate IsEngagementLine(engagement: string) {
    |DigitRuns(engagement)| >= 3 && !StartsWith(engagement, ListPrefix)
  }

  // ---------------------------------------------------------------------------
  // One marker line, and the whole scan

  /** The author of the reply marked at line `i`: the last line of the window before it
      that names one. */
  function ReplyAuthor(lines: seq<string>, owner: string, i: nat): Option<string>
    requires i < |lines|
  {
    LastPick(lines, AuthorPick(owner), Max(0, i - AuthorWindow), i)
  }

  /** The text of the reply marked at line `i`: the first line of the window after it that
      yields one. */
  function ReplyText(lines: seq<string>, i: nat): Option<string>
    requires i < |lines|
  {
    FirstPick(lines, TextOf, i + 1, Min(|lines|, i + TextWindow))
  }

  /** The like count of the reply marked at line `i`: that of the first line of the window
      after it that has one, or 0. */
  function ReplyLikes(lines: seq<string>, i: nat): nat
    requires i < |lines|
  {
    match FirstPick(lines, LikesOf, i + 1, Min(|lines|, i + LikesWindow))
    case Some(likes) => likes
    case None => 0
  }

  /** The record the scan builds at line `i`, before deduplication: one exists only on a
      marker line for which both an author and a text were found. */
  function ReplyAt(lines: seq<string>, owner: string, i: nat): Option<Reply>
    requires i < |lines|
  {
    if !IsMarkerLine(lines[i]) then None
    else
      var author := ReplyAuthor(lines, owner, i);
      var text := ReplyText(lines, i);
      if author.Some? && text.Some? then
        Some(Reply(author.value, text.value, ReplyLikes(lines, i), IsQuestion(text.value)))
      else None
  }

  /** The record built at each line, and none past the last line. */
  function LineRecord(lines: seq<string>, owner: string): nat -> Option<Reply> {
    (i: nat) => if i < |lines| then ReplyAt(lines, owner, i) else None
  }

  /** The records of the marker lines among the first `k` lines, in line order. */
  function Candidates(lines: seq<string>, owner: string, k: nat): seq<Reply> {
    Collect(LineRecord(lines, owner), k)
  }

  /** `any(r["author"] == author and r["text"] == text for r in replies)` */
  predicate Seen(replies: seq<Reply>, author: string, text: string) {
    exists r :: r in replies && r.author == author && r.text == text
  }

  /** The append step of the scan: a record is added unless its pair was seen before. */
  function Admit(kept: seq<Reply>, next: Option<Reply>): seq<Reply> {
    match next
    case None => kept
    case Some(r) => if Seen(kept, r.author, r.text) then kept else kept + [r]
  }

  /** The records the scan keeps from `rs`: each is admitted in turn. */
  function Dedup(rs: seq<Reply>): seq<Reply>
    decreases |rs|
  {
    if rs == [] then [] else Admit(Dedup(rs[..|rs| - 1]), Some(rs[|rs| - 1]))
  }

  /** One more line adds its record, if any, to the candidates. */
  lemma ExtractStep(lines: seq<string>, owner: string, i: nat)
    requires i < |lines|
    ensures Dedup(Candidates(lines, owner, i + 1))
         == Admit(Dedup(Candidates(lines, owner, i)), ReplyAt(lines, owner, i))
  {
    var rs := Candidates(lines, owner, i);
    var f := LineRecord(lines, owner);
    assert Candidates(lines, owner, i + 1) == rs + OptionList(f(i));
    assert f(i) == ReplyAt(lines, owner, i);
    match ReplyAt(lines, owner, i)
    case None => assert rs + [] == rs;
    case Some(r) => assert (rs + [r])[..|rs|] == rs;
  }

  /** The records the scan has kept after the first `k` lines: each line's record, if
      any, admitted in turn. */
  function Scan(lines: seq<string>, owner: string, k: nat): seq<Reply>
    requires k <= |lines|
  {
    if k == 0 then [] else Admit(Scan(lines, owner, k - 1), ReplyAt(lines, owner, k - 1))
  }

  /** What `parse_replies` returns for the lines of a snapshot. */
  function Extract(lines: seq<string>, owner: string): seq<Reply> {
    Scan(lines, owner, |lines|)
  }

  /** Scanning line by line is deduplicating the records of all marker lines. */
  lemma {:induction false} ScanIsDedup(lines: seq<string>, owner: string, k: nat)
    requires k <= |lines|
    ensures Scan(lines, owner, k) == Dedup(Candidates(lines, owner, k))
  {
    if k > 0 {
      ScanIsDedup(lines, owner, k - 1);
      ExtractStep(lines, owner, k - 1);
    }
  }

  /** The backward scan for the author of the reply marked at line `i`: every line of the
      window that names an author overwrites the previous one. */
  method FindAuthor(lines: seq<string>, owner: string, i: nat) returns (author: Option<string>)
    requires i < |lines|
    ensures author == ReplyAuthor(lines, owner, i)
  {
    author := None;
    var lo := Max(0, i - AuthorWindow);
    var j := lo;
    while j < i
      invariant lo <= j <= i
      invariant author == LastPick(lines, AuthorPick(owner), lo, j)
    {
      var handle := FirstHandle(lines[j]);
      if handle.Some? && handle.value != owner {
        author := Some("@" + handle.value);
      }
      j := j + 1;
    }
  }

  /** The forward scan for the text of the reply marked at line `i`: it stops at the first
      `- text:` line whose cleaned text is acceptable. */
  method FindText(lines: seq<string>, i: nat) returns (text: Option<string>)
    requires i < |lines|
    ensures text == ReplyText(lines, i)
  {
    text := None;
    var hi := Min(|lines|, i + TextWindow);
    var j := i + 1;
    while j < hi
      invariant i + 1 <= j <= hi
      invariant text.None?
      invariant FirstPick(lines, TextOf, i + 1, hi) == FirstPick(lines, TextOf, j, hi)
    {
      var content := Strip(lines[j]);
      if StartsWith(content, TextPrefix) {
        var cleaned := CleanText(content);
        if IsAcceptableText(cleaned) {
          text := Some(cleaned);
          break;
        }
      }
      j := j + 1;
    }
  }

  /** The forward scan for the like count of the reply marked at line `i`: it stops at the
      first line with three or more numbers that does not start with "- ". */
  method FindLikes(lines: seq<string>, i: nat) returns (likes: nat)
    requires i < |lines|
    ensures likes == ReplyLikes(lines, i)
  {
    likes := 0;
    var hi := Min(|lines|, i + LikesWindow);
    var j := i + 1;
    while j < hi
      invariant i + 1 <= j <= hi
      invariant likes == 0
      invariant FirstPick(lines, LikesOf, i + 1, hi) == FirstPick(lines, LikesOf, j, hi)
    {
      var engagement := Strip(lines[j]);
      if IsEngagementLine(engagement) {
        var parsed := ParseInt(DigitRuns(engagement)[0]);
        if parsed.Some? {
          likes := parsed.value;
        }
        break;
      }
      j := j + 1;
    }
  }

  /** The record read around the marker line `i`: the author, text and like-count scans,
      and the record built when both an author and a text were found. */
  method ReadReply(lines: seq<string>, owner: string, i: nat) returns (reply: Option<Reply>)
    requires i < |lines| && IsMarkerLine(lines[i])
    ensures reply == ReplyAt(lines, owner, i)
  {
    var author := FindAuthor(lines, owner, i);
    var text := FindText(lines, i);
    var likes := FindLikes(lines, i);
    if author.Some? && text.Some? {
      reply := Some(Reply(author.value, text.value, likes, IsQuestion(text.value)));
    } else {
      reply := None;
    }
  }

  /** `parse_replies(snapshot, original_author)`: the snapshot is split into lines and
      scanned. */
  method ParseReplies(snapshot: string, originalAuthor: string) returns (replies: seq<Reply>)
    ensures replies == Extract(SplitLines(snapshot), originalAuthor)
  {
    var lines := SplitLines(snapshot);
    replies := ScanLines(lines, originalAuthor);
  }

  /** The loop of `parse_replies`: every marker line's record is appended unless its
      (author, text) pair was already appended. */
  method ScanLines(lines: seq<string>, originalAuthor: string) returns (replies: seq<Reply>)
    ensures replies == Extract(lines, originalAuthor)
  {
    replies := [];
    var n := |lines|;
    var i := 0;
    while i < n
      invariant 0 <= i <= n
      invariant replies == Scan(lines, originalAuthor, i)
    {
      if IsMarkerLine(lines[i]) {
        var reply := ReadReply(lines, originalAuthor, i);
        if reply.Some? && !Seen(replies, reply.value.author, reply.value.text) {
          replies := replies + [reply.value];
        }
      }
      i := i + 1;
    }
  }

  // ---------------------------------------------------------------------------
  // Properties of the deduplication

  /** Two records with the same (author, text) pair. */
  predicate SameKey(r: Reply, r': Reply) {
    r.author == r'.author && r.text == r'.text
  }

  /** `rs[k]` is the first record of `rs` with its (author, text) pair. */
  predicate FirstOfKey(rs: seq<Reply>, k: int) {
    0 <= k < |rs| && forall k' :: 0 <= k' < k ==> !SameKey(rs[k'], rs[k])
  }

  lemma SeenMember(replies: seq<Reply>, r: Reply)
    requires r in replies
    ensures Seen(replies, r.author, r.text)
  {
  }

  /** What was seen stays seen when more records are kept. */
  lemma SeenAdmit(kept: seq<Reply>, next: Option<Reply>, author: string, text: string)
    requires Seen(kept, author, text)
    ensures Seen(Admit(kept, next), author, text)
  {
    var r :| r in kept && r.author == author && r.text == text;
    assert r in Admit(kept, next);
  }

  /** The scan keeps records in their original order and invents none. */
  lemma {:induction false} DedupIsSubsequence(rs: seq<Reply>)
    ensures IsSubsequence(Dedup(rs), rs)
    decreases |rs|
  {
    if rs != [] {
      var init, last := rs[..|rs| - 1], rs[|rs| - 1];
      assert rs == init + [last];
      DedupIsSubsequence(init);
      SubsequenceExtend(Dedup(init), init, last);
    }
  }

  /** No two kept records share an (author, text) pair. */
  lemma {:induction false} DedupUnique(rs: seq<Reply>)
    ensures forall a, b :: 0 <= a < b < |Dedup(rs)| ==> !SameKey(Dedup(rs)[a], Dedup(rs)[b])
    decreases |rs|
  {
    if rs != [] {
      var init, last := rs[..|rs| - 1], rs[|rs| - 1];
      DedupUnique(init);
      var kept := Dedup(init);
      if !Seen(kept, last.author, last.text) {
        forall a | 0 <= a < |kept| ensures !SameKey(kept[a], last) {
          if SameKey(kept[a], last) {
            SeenMember(kept, kept[a]);
          }
        }
      }
    }
  }

  /** Every record's pair is among the kept ones. */
  lemma {:induction false} DedupCovers(rs: seq<Reply>)
    ensures forall k :: 0 <= k < |rs| ==> Seen(Dedup(rs), rs[k].author, rs[k].text)
    decreases |rs|
  {
    if rs != [] {
      var init, last := rs[..|rs| - 1], rs[|rs| - 1];
      DedupCovers(init);
      var kept := Dedup(init);
      forall k | 0 <= k < |rs| ensures Seen(Dedup(rs), rs[k].author, rs[k].text) {
        if k < |init| {
          assert rs[k] == init[k];
          SeenAdmit(kept, Some(last), rs[k].author, rs[k].text);
        } else if Seen(kept, last.author, last.text) {
        } else {
          SeenMember(kept + [last], last);
        }
      }
    }
  }

  /** The kept records are exactly the first record of each pair: every kept record is
      the first of its pair, and every first of a pair is kept. */
  lemma {:induction false} DedupKeepsFirst(rs: seq<Reply>)
    ensures forall x :: x in Dedup(rs) ==> exists k :: FirstOfKey(rs, k) && rs[k] == x
    ensures forall k :: FirstOfKey(rs, k) ==> rs[k] in Dedup(rs)
    decreases |rs|
  {
    if rs != [] {
      var init, last := rs[..|rs| - 1], rs[|rs| - 1];
      DedupKeepsFirst(init);
      var kept := Dedup(init);
      forall k | FirstOfKey(init, k) ensures FirstOfKey(rs, k) {
        assert forall k' :: 0 <= k' <= k ==> rs[k'] == init[k'];
      }
      forall k | FirstOfKey(rs, k) && k < |init| ensures FirstOfKey(init, k) {
        assert forall k' :: 0 <= k' <= k ==> rs[k'] == init[k'];
      }
      if !Seen(kept, last.author, last.text) {
        DedupCovers(init);
        forall k' | 0 <= k' < |init| ensures !SameKey(rs[k'], last) {
          assert rs[k'] == init[k'];
        }
        assert FirstOfKey(rs, |init|);
      } else {
        var x :| x in kept && x.author == last.author && x.text == last.text;
        DedupIsSubsequence(init);
        SubsequenceMembers(kept, init);
        var k' :| 0 <= k' < |init| && init[k'] == x;
        assert rs[k'] == x;
        assert !FirstOfKey(rs, |init|);
      }
    }
  }

  // ---------------------------------------------------------------------------
  // Properties of the records

  /** Every record before deduplication is the record of some marker line... */
  lemma CandidateFromLine(lines: seq<string>, owner: string, k: nat, r: Reply)
    requires k <= |lines| && r in Candidates(lines, owner, k)
    ensures exists i :: 0 <= i < k && ReplyAt(lines, owner, i) == Some(r)
  {
    CollectFrom(LineRecord(lines, owner), k, r);
    var i :| 0 <= i < k && LineRecord(lines, owner)(i) == Some(r);
    assert ReplyAt(lines, owner, i) == Some(r);
  }

  /** ... and the record of every marker line is among them. */
  lemma LineInCandidates(lines: seq<string>, owner: string, k: nat, i: nat)
    requires i < k <= |lines| && ReplyAt(lines, owner, i).Some?
    ensures ReplyAt(lines, owner, i).value in Candidates(lines, owner, k)
  {
    assert LineRecord(lines, owner)(i) == ReplyAt(lines, owner, i);
    InCollect(LineRecord(lines, owner), k, i);
  }

  /** What every extracted record satisfies: the author is "@" followed by a non-empty
      run of word characters that is not the thread owner's handle; the text is non-empty,
      does not contain "Replying to" and has no surrounding whitespace; the question flag
      is the classifier's verdict on the text. */
  predicate WellFormed(r: Reply, owner: string) {
    && |r.author| >= 2 && r.author[0] == '@' && AllWordChars(r.author[1..])
    && r.author[1..] != owner
    && r.text != [] && !Contains(r.text, Marker)
    && !IsSpace(r.text[0]) && !IsSpace(r.text[|r.text| - 1])
    && r.isQuestion == IsQuestion(r.text)
  }

  /** A line names the owner, or no one: its first `@handle`, if any, is the owner's. */
  predicate NamesNoAuthor(line: string, owner: string) {
    FirstHandle(line).None? || FirstHandle(line).value == owner
  }

  /** The author of the reply marked at line `i` is found exactly when some line of the
      10 before it names someone other than the owner; it is then "@" and the handle of
      the last such line, a non-empty run of word characters. */
  lemma AuthorFromWindow(lines: seq<string>, owner: string, i: nat)
    requires i < |lines|
    ensures var a := ReplyAuthor(lines, owner, i);
      && (a.None? <==> forall j :: Max(0, i - AuthorWindow) <= j < i ==> NamesNoAuthor(lines[j], owner))
      && (a.Some? ==>
            && |a.value| >= 2 && a.value[0] == '@'
            && AllWordChars(a.value[1..]) && a.value[1..] != owner
            && exists j :: && Max(0, i - AuthorWindow) <= j < i
                           && FirstHandle(lines[j]) == Some(a.value[1..])
                           && forall j' :: j < j' < i ==> NamesNoAuthor(lines[j'], owner))
  {
    var lo := Max(0, i - AuthorWindow);
    LastPickSpec(lines, AuthorPick(owner), lo, i);
    assert forall j :: lo <= j < i ==>
      (AuthorPick(owner)(lines[j]).None? <==> NamesNoAuthor(lines[j], owner));
    var a := ReplyAuthor(lines, owner, i);
    if a.Some? {
      var j :| IsLastPick(lines, AuthorPick(owner), lo, i, j) && a == AuthorPick(owner)(lines[j]);
      var h := FirstHandle(lines[j]).value;
      FirstHandleSpec(lines[j]);
      assert a.value == "@" + h;
      assert a.value[1..] == h;
    }
  }

  /** The reply marked at line `i` has no text exactly when none of the 9 lines after it
      yields one. */
  lemma NoTextInWindow(lines: seq<string>, i: nat)
    requires i < |lines|
    ensures ReplyText(lines, i).None? <==>
      forall j :: i < j < Min(|lines|, i + TextWindow) ==> TextOf(lines[j]).None?
  {
    var hi := Min(|lines|, i + TextWindow);
    FirstPickSpec(lines, TextOf, i + 1, hi);
    if ReplyText(lines, i).None? {
      forall j | i < j < hi ensures TextOf(lines[j]).None? {
      }
    }
  }

  /** The text of the reply marked at line `i`, when there is one, is the cleaned text of
      the first `- text:` line of the window that yields one, earlier `- text:` lines whose
      text is empty or holds "Replying to" being skipped. */
  lemma TextFromWindow(lines: seq<string>, i: nat)
    requires i < |lines| && ReplyText(lines, i).Some?
    ensures var t := ReplyText(lines, i).value;
      exists j :: && i < j < Min(|lines|, i + TextWindow)
                  && StartsWith(Strip(lines[j]), TextPrefix)
                  && t == CleanText(Strip(lines[j]))
                  && IsAcceptableText(t)
                  && !IsSpace(t[0]) && !IsSpace(t[|t| - 1])
                  && forall j' :: i < j' < j ==> TextOf(lines[j']).None?
  {
    var hi := Min(|lines|, i + TextWindow);
    FirstPickSpec(lines, TextOf, i + 1, hi);
    var j :| IsFirstPick(lines, TextOf, i + 1, hi, j) && ReplyText(lines, i) == TextOf(lines[j]);
    TextOfSpec(lines[j]);
    assert forall j' :: i < j' < j ==> TextOf(lines[j']).None?;
  }

  /** What a line yields as text: the cleaned content of a stripped line that starts with
      the text prefix, non-empty, without the marker and with no whitespace at either end. */
  lemma TextOfSpec(line: string)
    ensures var t := TextOf(line);
      t.Some? ==>
        && StartsWith(Strip(line), TextPrefix)
        && t.value == CleanText(Strip(line))
        && IsAcceptableText(t.value)
        && !IsSpace(t.value[0]) && !IsSpace(t.value[|t.value| - 1])
  {
    StripEnds(RemoveAll(Strip(line), TextPrefix));
  }

  /** A line yields a like count exactly when it is an engagement line. */
  lemma LikesOfEngagement(line: string)
    ensures LikesOf(line).Some? <==> IsEngagementLine(Strip(line))
    ensures LikesOf(line).Some? ==>
      IsEngagementLine(Strip(line)) && LikesOf(line).value == LikesValue(DigitRuns(Strip(line))[0])
  {
  }

  /** A like count read from a line comes from the whole digit run that starts at the
      first digit of the stripped line, and such a line holds at least three runs. The
      count is the run's value, or 0 when the run is too long for `int()`. */
  lemma LikesFromFirstDigit(line: string)
    requires LikesOf(line).Some?
    ensures |DigitRuns(Strip(line))| >= 3
    ensures exists f :: && 0 <= f < |Strip(line)| && IsDigit(Strip(line)[f])
                        && (forall k :: 0 <= k < f ==> !IsDigit(Strip(line)[k]))
                        && DigitRuns(Strip(line))[0] == Run(Strip(line), f, Digit)
    ensures |DigitRuns(Strip(line))[0]| <= MaxStrDigits ==>
      LikesOf(line).value == DecimalValue(DigitRuns(Strip(line))[0])
    ensures |DigitRuns(Strip(line))[0]| > MaxStrDigits ==> LikesOf(line).value == 0
  {
    FirstDigitRun(Strip(line), 0);
  }

  /** The first of the lines `(i, hi)` that is an engagement line. */
  predicate FirstEngagementLine(lines: seq<string>, i: nat, hi: nat, j: nat)
    requires hi <= |lines|
  {
    i < j < hi && IsEngagementLine(Strip(lines[j]))
    && forall j' :: i < j' < j ==> !IsEngagementLine(Strip(lines[j']))
  }

  /** The like count of the reply marked at line `i` is 0 when none of the 14 lines after
      it is an engagement line. */
  lemma NoLikesWithoutEngagement(lines: seq<string>, i: nat)
    requires i < |lines|
    requires forall j :: i < j < Min(|lines|, i + LikesWindow) ==> !IsEngagementLine(Strip(lines[j]))
    ensures ReplyLikes(lines, i) == 0
  {
    var hi := Min(|lines|, i + LikesWindow);
    forall j | i < j < hi ensures LikesOf(lines[j]).None? {
      LikesOfEngagement(lines[j]);
    }
    FirstPickSpec(lines, LikesOf, i + 1, hi);
  }

  /** Otherwise it is the value of the first number on the first engagement line, or 0
      when that number has more digits than `int()` converts. */
  lemma LikesFromFirstEngagement(lines: seq<string>, i: nat, j: nat)
    requires i < |lines|
    requires FirstEngagementLine(lines, i, Min(|lines|, i + LikesWindow), j)
    ensures |DigitRuns(Strip(lines[j]))[0]| <= MaxStrDigits ==>
      ReplyLikes(lines, i) == DecimalValue(DigitRuns(Strip(lines[j]))[0])
    ensures |DigitRuns(Strip(lines[j]))[0]| > MaxStrDigits ==> ReplyLikes(lines, i) == 0
  {
    var hi := Min(|lines|, i + LikesWindow);
    forall j' | i < j' < j ensures LikesOf(lines[j']).None? {
      LikesOfEngagement(lines[j']);
    }
    LikesOfEngagement(lines[j]);
    FirstPickPrefix(lines, LikesOf, i + 1, j, hi);
  }

  /** Every record built at a marker line is well formed. */
  lemma ReplyAtWellFormed(lines: seq<string>, owner: string, i: nat)
    requires i < |lines|
    ensures ReplyAt(lines, owner, i).Some? ==>
      IsMarkerLine(lines[i]) && WellFormed(ReplyAt(lines, owner, i).value, owner)
  {
    if ReplyAt(lines, owner, i).Some? {
      AuthorFromWindow(lines, owner, i);
      TextFromWindow(lines, i);
    }
  }

  /** Every record `parse_replies` returns is well formed, and no two share an
      (author, text) pair. */
  lemma ExtractWellFormed(lines: seq<string>, owner: string)
    ensures forall r :: r in Extract(lines, owner) ==> WellFormed(r, owner)
    ensures forall a, b :: 0 <= a < b < |Extract(lines, owner)| ==>
      !SameKey(Extract(lines, owner)[a], Extract(lines, owner)[b])
  {
    var rs := Candidates(lines, owner, |lines|);
    ScanIsDedup(lines, owner, |lines|);
    DedupIsSubsequence(rs);
    SubsequenceMembers(Dedup(rs), rs);
    forall r | r in Extract(lines, owner) ensures WellFormed(r, owner) {
      CandidateFromLine(lines, owner, |lines|, r);
      var i :| 0 <= i < |lines| && ReplyAt(lines, owner, i) == Some(r);
      ReplyAtWellFormed(lines, owner, i);
    }
    DedupUnique(rs);
  }

  // ---------------------------------------------------------------------------
  // A worked example

  /** The lines of a three-line snapshot: an author line, a marker line, a text line. */
  const ExampleLines := ["@alice", "Replying to @bob", "- text: Why?"]

  lemma ExampleMarkers()
    ensures !IsMarkerLine(ExampleLines[0]) && IsMarkerLine(ExampleLines[1]) && !IsMarkerLine(ExampleLines[2])
  {
    assert Strip("@alice") == "@alice";
    ContainsIff("@alice", Marker);
    assert Strip("Replying to @bob") == "Replying to @bob";
    assert OccursAt("Replying to @bob", Marker, 0);
    ContainsIff("Replying to @bob", Marker);
    assert Strip("- text: Why?") == "- text: Why?";
    ContainsIff("- text: Why?", Marker);
  }

  lemma ExampleAuthor()
    ensures ReplyAuthor(ExampleLines, "bob", 1) == Some("@alice")
  {
    assert HandleAt("@alice", 0);
    assert "@alice"[1..6] == "alice";
    RunIs("@alice", 1, Word, "alice");
    assert FirstHandle("@alice") == Some("alice");
    assert "alice"[0] != "bob"[0];
    assert "@" + "alice" == "@alice";
    assert AuthorPick("bob")(ExampleLines[0]) == Some("@alice");
  }

  lemma ExampleText()
    ensures ReplyText(ExampleLines, 1) == Some("Why?")
  {
    assert Strip("- text: Why?") == "- text: Why?";
    assert RemoveAll("- text: Why?", TextPrefix) == " Why?";
    assert Strip(" Why?") == "Why?";
    ContainsIff("Why?", Marker);
    assert TextOf(ExampleLines[2]) == Some("Why?");
  }

  lemma ExampleLikes()
    ensures ReplyLikes(ExampleLines, 1) == 0
  {
    assert Strip("- text: Why?") == "- text: Why?";
    NoDigitRuns("- text: Why?", 0);
    assert LikesOf(ExampleLines[2]) == None;
  }

  lemma ExampleQuestion()
    ensures IsQuestion("Why?")
  {
    assert OccursAt("Why?", "?", 3);
    ContainsIff("Why?", "?");
    QuestionMarkIsQuestion("Why?");
  }

  /** On the thread of "bob", these lines yield one reply, by "@alice", with text
      "Why?", no likes, flagged as a question. */
  lemma ParseExample()
    ensures Extract(ExampleLines, "bob") == [Reply("@alice", "Why?", 0, true)]
  {
    ExampleMarkers();
    ExampleAuthor();
    ExampleText();
    ExampleLikes();
    ExampleQuestion();
    assert ReplyAt(ExampleLines, "bob", 1) == Some(Reply("@alice", "Why?", 0, true));
    assert Scan(ExampleLines, "bob", 1) == [];
  }
}
