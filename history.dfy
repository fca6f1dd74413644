/** The bounded input history of the message editor: submitted lines, newest
    first, never more than INPUT_HISTORY_SIZE of them. */
module InputHistory {
  import opened MinMax

  const InputHistorySize: nat := 127

  /** One submission on the deque: the back (oldest) entry is popped when the
      deque is exactly full, then the line is pushed at the front. */
  function Pushed(h: seq<string>, line: string): (r: seq<string>)
    ensures |r| >= 1 && r[0] == line
    ensures r[1..] <= h
    ensures |h| < InputHistorySize ==> r[1..] == h
    ensures |h| == InputHistorySize ==> |r| == InputHistorySize
  {
    [line] + (if |h| == InputHistorySize then h[..|h| - 1] else h)
  }

  /** The history after submitting `lines` (oldest first) into an empty deque. */
  function Recent(lines: seq<string>): (r: seq<string>)
    ensures |r| <= InputHistorySize
  {
    if |lines| == 0 then []
    else Pushed(Recent(lines[..|lines| - 1]), lines[|lines| - 1])
  }

  /** The history holds exactly the last min(n, 127) submissions, newest
      first. */
  lemma {:induction false} RecentNewestFirst(lines: seq<string>)
    ensures |Recent(lines)| == Min(|lines|, InputHistorySize)
    ensures forall k :: 0 <= k < |Recent(lines)| ==>
              Recent(lines)[k] == lines[|lines| - 1 - k]
  {
    if |lines| > 0 {
      var init := lines[..|lines| - 1];
      RecentNewestFirst(init);
      var h := Recent(init);
      var r := Recent(lines);
      assert r == Pushed(h, lines[|lines| - 1]);
      forall k | 0 <= k < |r| ensures r[k] == lines[|lines| - 1 - k] {
        if k > 0 {
          assert r[k] == r[1..][k - 1] == h[k - 1];
          assert h[k - 1] == init[|init| - 1 - (k - 1)];
        }
      }
    }
  }

  /** A new submission becomes the newest entry and the previous history
      follows it, losing only its oldest entry when it was full. */
  lemma RecentAppend(lines: seq<string>, line: string)
    ensures Recent(lines + [line]) == Pushed(Recent(lines), line)
  {
    assert (lines + [line])[..|lines|] == lines;
  }
}
