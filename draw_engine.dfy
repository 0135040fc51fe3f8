/** The state of the lottery page and the draw that runs over it.

    The page keeps its state in React state hooks; `App` holds one field per hook and
    each handler becomes a method. The draw (`handleDraw`) validates the request,
    selects the winners, then reveals them one slot at a time: a `???` slot is
    appended, its name flickers through random participants on a 100 ms ticker for
    5000 ms, then it stops on the true winner. Timers become steps taken in order:
    the 500 ms waits before spinning and after stopping change nothing and are
    dropped, and the ticker's 50 ticks all happen before the stop. The random
    source is an oracle: `swaps` for the shuffle (see Selection) and, for each
    slot, the 50 participant indices its ticker shows. */
module DrawEngine {
  import opened Participants
  import opened Selection
  import opened WinnerCountInput

  /** What a new slot shows before it stops. */
  const Placeholder: string := "???"
  /** How long a slot spins, and the ticker's period, in milliseconds. */
  const SpinDuration: nat := 5000
  const ChangeInterval: nat := 100
  /** The number of ticker firings per slot. */
  const SpinTicks: nat := SpinDuration / ChangeInterval

  /** One slot-machine row. The source creates it without a `stopped` key, which
      reads as false. */
  datatype Slot = Slot(rank: int, name: string, spinning: bool, stopped: bool)

  /** Why a draw request is refused (each is an `alert` in the source). */
  datatype DrawError =
    | NoComments
    | NonPositiveCount
    | TooManyWinners(participants: nat, requested: int)

  datatype Checked = Accepted(users: seq<string>) | Rejected(error: DrawError)

  datatype Outcome = Drawn(winners: seq<string>) | NotDrawn(error: DrawError)

  /** Every state hook of the page, as one value. */
  datatype AppState = AppState(
    currentStep: int,
    url: string,
    comments: seq<Comment>,
    totalComments: int,
    uniqueAuthors: int,
    winnerCount: int,
    winners: seq<string>,
    loading: bool,
    statusMessage: string,
    sessionId: string,
    isDrawing: bool,
    slots: seq<Slot>)

  /** The values the hooks start with. */
  function Initial(): AppState {
    AppState(1, "", [], 0, 0, 1, [], false, "", "", false, [])
  }

  /** The checks `handleDraw` makes before anything changes, in the source's order:
      no comments, then a count below 1, then more winners than participants. */
  function Validate(comments: seq<Comment>, count: int): (r: Checked)
    ensures r.Accepted? <==> |comments| > 0 && 0 < count <= |UniqueUsers(comments)|
    ensures r.Accepted? ==> r.users == UniqueUsers(comments) && |r.users| > 0
    ensures |comments| == 0 ==> r == Rejected(NoComments)
    ensures |comments| > 0 && count <= 0 ==> r == Rejected(NonPositiveCount)
    ensures |comments| > 0 && count > |UniqueUsers(comments)| ==>
              r == Rejected(TooManyWinners(|UniqueUsers(comments)|, count))
  {
    if |comments| == 0 then Rejected(NoComments)
    else
      var users := UniqueUsers(comments);
      if count <= 0 then Rejected(NonPositiveCount)
      else if count > |users| then Rejected(TooManyWinners(|users|, count))
      else Accepted(users)
  }

  /** The slot appended at the start of iteration `i`. */
  function NewSlot(i: nat): Slot {
    Slot(i + 1, Placeholder, true, false)
  }

  /** A ticker firing: `prev.map((slot, idx) => idx === i ? { ...slot, name } : slot)`. */
  function WithName(slots: seq<Slot>, i: nat, name: string): (r: seq<Slot>)
    ensures |r| == |slots|
    ensures forall k :: 0 <= k < |slots| && k != i ==> r[k] == slots[k]
    ensures i < |slots| ==> r[i] == slots[i].(name := name)
  {
    seq(|slots|, k requires 0 <= k < |slots| => if k == i then slots[k].(name := name) else slots[k])
  }

  /** The stop: slot `i` shows `winner` and is marked stopped, the others stay. */
  function WithWinner(slots: seq<Slot>, i: nat, winner: string): (r: seq<Slot>)
    ensures |r| == |slots|
    ensures forall k :: 0 <= k < |slots| && k != i ==> r[k] == slots[k]
    ensures i < |slots| ==> r[i] == slots[i].(name := winner, spinning := false, stopped := true)
  {
    seq(|slots|, k requires 0 <= k < |slots| =>
      if k == i then slots[k].(name := winner, spinning := false, stopped := true) else slots[k])
  }

  /** The slots once every winner in `ws` has been revealed. */
  function Revealed(ws: seq<string>): (r: seq<Slot>)
    ensures |r| == |ws|
    ensures forall k :: 0 <= k < |ws| ==>
              r[k].rank == k + 1 && r[k].name == ws[k] && r[k].stopped && !r[k].spinning
  {
    seq(|ws|, k requires 0 <= k < |ws| => Slot(k + 1, ws[k], false, true))
  }

  /** A later ticker firing hides an earlier one. */
  lemma NameOverwritten(slots: seq<Slot>, i: nat, a: string, b: string)
    ensures WithName(WithName(slots, i, a), i, b) == WithName(slots, i, b)
  {
  }

  /** One iteration of the reveal loop (append, spin, stop) extends the revealed
      prefix by exactly the next winner, whatever the ticker showed last. */
  lemma RevealStep(ws: seq<string>, i: nat, spun: string)
    requires i < |ws|
    ensures WithWinner(WithName(Revealed(ws[..i]) + [NewSlot(i)], i, spun), i, ws[i]) == Revealed(ws[..i + 1])
  {
    var before := Revealed(ws[..i]) + [NewSlot(i)];
    var after := WithWinner(WithName(before, i, spun), i, ws[i]);
    var want := Revealed(ws[..i + 1]);
    assert |after| == |want| == i + 1;
    forall k | 0 <= k <= i ensures after[k] == want[k] {
      if k < i {
        assert after[k] == before[k] == Revealed(ws[..i])[k];
      }
    }
  }

  /** The text of `${n}` for an integer. */
  function IntegerText(n: int): string {
    if n < 0 then "-" + Decimal(-n) else Decimal(n)
  }

  class App {
    var currentStep: int
    var url: string
    var comments: seq<Comment>
    var totalComments: int
    var uniqueAuthors: int
    var winnerCount: int
    var winners: seq<string>
    var loading: bool
    var statusMessage: string
    var sessionId: string
    var isDrawing: bool
    var slots: seq<Slot>

    function State(): AppState
      reads this
    {
      AppState(currentStep, url, comments, totalComments, uniqueAuthors, winnerCount,
               winners, loading, statusMessage, sessionId, isDrawing, slots)
    }

    /** The page as first rendered. */
    constructor ()
      ensures State() == Initial()
    {
      currentStep, url, comments, totalComments, uniqueAuthors, winnerCount := 1, "", [], 0, 0, 1;
      winners, loading, statusMessage, sessionId, isDrawing, slots := [], false, "", "", false, [];
    }

    /** Typing in the URL field. */
    method EnterUrl(value: string)
      modifies this
      ensures State() == old(State()).(url := value)
    {
      url := value;
    }

    /** The state writes of a successful crawl; the response is an input. The
        step then moves on to 3 after half a second (ShowSettings). */
    method LoadCrawlResult(data: seq<Comment>, total: int, unique: int, session: string)
      modifies this
      ensures State() == old(State()).(comments := data, totalComments := total,
        uniqueAuthors := unique, sessionId := session, currentStep := 2, loading := false,
        statusMessage := "크롤링 완료! " + IntegerText(total) + "개의 댓글을 찾았습니다.")
    {
      comments := data;
      totalComments := total;
      uniqueAuthors := unique;
      sessionId := session;
      statusMessage := "크롤링 완료! " + IntegerText(total) + "개의 댓글을 찾았습니다.";
      currentStep := 2;
      loading := false;
    }

    /** The delayed `setCurrentStep(3)` after a successful crawl. */
    method ShowSettings()
      modifies this
      ensures State() == old(State()).(currentStep := 3)
    {
      currentStep := 3;
    }

    /** Editing the winner-count field: the stored count is never 0. */
    method EnterWinnerCount(value: string)
      modifies this
      ensures State() == old(State()).(winnerCount := WinnerCountFromInput(value))
      ensures winnerCount != 0
    {
      winnerCount := WinnerCountFromInput(value);
    }

    /** The draw screen opens empty and the draw button is disabled. */
    method BeginDraw()
      modifies this
      ensures State() == old(State()).(isDrawing := true, currentStep := 4, slots := [], winners := [])
    {
      isDrawing := true;
      currentStep := 4;
      slots := [];
      winners := [];
    }

    /** Iteration `i` appends one `???` slot of rank `i + 1`; earlier slots stay. */
    method AddSlot(i: nat)
      modifies this
      ensures State() == old(State()).(slots := old(slots) + [NewSlot(i)])
    {
      slots := slots + [NewSlot(i)];
    }

    /** One ticker firing shows `users[pick]` in slot `i` and changes nothing else. */
    method Tick(i: nat, users: seq<string>, pick: nat)
      requires pick < |users|
      modifies this
      ensures State() == old(State()).(slots := WithName(old(slots), i, users[pick]))
      ensures i < |slots| ==> slots[i].name in users && slots[i].rank == old(slots)[i].rank
    {
      slots := WithName(slots, i, users[pick]);
    }

    /** The ticker: it fires every `ChangeInterval` ms, adds the interval to
        `elapsed`, and clears itself once `elapsed` reaches `SpinDuration` — after
        exactly 50 firings. Only slot `i`'s name changes; it ends on the last pick. */
    method Spin(i: nat, users: seq<string>, picks: seq<nat>) returns (ticks: nat)
      requires |picks| == SpinTicks && forall t :: 0 <= t < |picks| ==> picks[t] < |users|
      modifies this
      ensures ticks == SpinTicks == 50
      ensures State() == old(State()).(slots := WithName(old(slots), i, users[picks[SpinTicks - 1]]))
    {
      var elapsed := 0;
      var running := true;
      ticks := 0;
      while running
        invariant ticks <= SpinTicks && elapsed == ticks * ChangeInterval
        invariant running <==> ticks < SpinTicks
        invariant ticks == 0 ==> State() == old(State())
        invariant ticks > 0 ==> State() == old(State()).(slots := WithName(old(slots), i, users[picks[ticks - 1]]))
        decreases SpinTicks - ticks
      {
        Tick(i, users, picks[ticks]);
        if ticks > 0 {
          NameOverwritten(old(slots), i, users[picks[ticks - 1]], users[picks[ticks]]);
        }
        ticks := ticks + 1;
        elapsed := elapsed + ChangeInterval;
        if elapsed >= SpinDuration {
          running := false;
        }
      }
    }

    /** The stop: slot `i` shows its true winner and is marked stopped. */
    method Stop(i: nat, winner: string)
      modifies this
      ensures State() == old(State()).(slots := WithWinner(old(slots), i, winner))
    {
      slots := WithWinner(slots, i, winner);
    }

    /** After the last slot: publish the winners and re-enable the buttons. */
    method Finish(selected: seq<string>)
      modifies this
      ensures State() == old(State()).(winners := selected, isDrawing := false)
    {
      winners := selected;
      isDrawing := false;
    }

    /** `handleDraw` (and `handleRedraw`, which only calls it). A refused request
        changes nothing; an accepted one ends with the winners published and slot
        `k` showing winner `k` with rank `k + 1`, stopped — whatever the previous
        draw left behind. */
    method Draw(swaps: seq<nat>, spinPicks: seq<seq<nat>>) returns (outcome: Outcome)
      requires ValidSwaps(swaps, |UniqueUsers(comments)|)
      requires |spinPicks| == |UniqueUsers(comments)|
      requires forall k :: 0 <= k < |spinPicks| ==>
                 |spinPicks[k]| == SpinTicks &&
                 forall t :: 0 <= t < SpinTicks ==> spinPicks[k][t] < |UniqueUsers(comments)|
      modifies this
      ensures var checked := Validate(old(comments), old(winnerCount));
        checked.Rejected? ==> outcome == NotDrawn(checked.error) && State() == old(State())
      ensures var checked := Validate(old(comments), old(winnerCount));
        checked.Accepted? ==>
          var selected := Selected(checked.users, old(winnerCount), swaps);
          && outcome == Drawn(selected)
          && State() == old(State()).(currentStep := 4, winners := selected, isDrawing := false,
                                       slots := Revealed(selected))
    {
      var checked := Validate(comments, winnerCount);
      if checked.Rejected? {
        return NotDrawn(checked.error);
      }
      var users := checked.users;
      var selected := SelectWinners(users, winnerCount, swaps);
      BeginDraw();
      var i := 0;
      while i < |selected|
        invariant 0 <= i <= |selected|
        invariant State() == old(State()).(currentStep := 4, winners := [], isDrawing := true,
                                            slots := Revealed(selected[..i]))
      {
        AddSlot(i);
        var ticks := Spin(i, users, spinPicks[i]);
        Stop(i, selected[i]);
        RevealStep(selected, i, users[spinPicks[i][SpinTicks - 1]]);
        i := i + 1;
      }
      assert selected[..i] == selected;
      Finish(selected);
      outcome := Drawn(selected);
    }

    /** `handleReset`: every field the handler writes goes back to its initial
        value (`loading` is not among them). Resetting a reset page changes nothing. */
    method Reset()
      modifies this
      ensures State() == Initial().(loading := old(loading))
      ensures old(State()) == Initial().(loading := old(loading)) ==> State() == old(State())
    {
      currentStep := 1;
      url := "";
      comments := [];
      totalComments := 0;
      uniqueAuthors := 0;
      winnerCount := 1;
      winners := [];
      statusMessage := "";
      sessionId := "";
      isDrawing := false;
      slots := [];
    }
  }
}
