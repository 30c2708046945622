// Setting the transcoders at the end of a save (src/platform/esp32/main/svs_settings.cpp).
module TranscoderSettings {
  import opened Bytes
  import opened Options
  import opened SvsConfig
  import opened Switch

  datatype TxChange = TxChange(input: nat, toYpbpr: bool, on: bool)

  function TxWanted(s: InputSettings, toYpbpr: bool): bool { if toYpbpr then s.rgbToYpbpr else s.ypbprToRgb }

  // ----- What has to change -----

  function InputChanges(n: nat, w: InputSettings, before: InputSettings): seq<TxChange> {
    (if w.rgbToYpbpr != before.rgbToYpbpr then [TxChange(n, true, w.rgbToYpbpr)] else []) +
    (if w.ypbprToRgb != before.ypbprToRgb then [TxChange(n, false, w.ypbprToRgb)] else [])
  }

  // Of inputs 1..m
  function Changes(want: seq<InputSettings>, before: seq<InputSettings>, m: nat): seq<TxChange>
    requires m <= |want| == |before|
  {
    if m == 0 then [] else Changes(want, before, m - 1) + InputChanges(m, want[m - 1], before[m - 1])
  }

  method TxChanges(want: seq<InputSettings>, before: seq<InputSettings>) returns (changes: seq<TxChange>)
    requires |want| == |before|
    ensures changes == Changes(want, before, |want|)
  {
    changes := [];
    for n := 1 to |want| + 1
      invariant changes == Changes(want, before, n - 1)
    {
      ghost var start := changes;
      var w, b := want[n - 1], before[n - 1];
      if w.rgbToYpbpr != b.rgbToYpbpr {
        changes := changes + [TxChange(n, true, w.rgbToYpbpr)];
      }
      if w.ypbprToRgb != b.ypbprToRgb {
        changes := changes + [TxChange(n, false, w.ypbprToRgb)];
      }
      assert changes == start + InputChanges(n, w, b);
    }
  }

  // A transcoder of an input that is to be what it is not
  predicate TxDiffers(want: seq<InputSettings>, before: seq<InputSettings>, n: nat, toYpbpr: bool)
    requires 1 <= n <= |want| == |before|
  {
    TxWanted(want[n - 1], toYpbpr) != TxWanted(before[n - 1], toYpbpr)
  }

  predicate IsTxChange(c: TxChange, want: seq<InputSettings>, before: seq<InputSettings>, m: nat)
    requires m <= |want| == |before|
  {
    1 <= c.input <= m && TxDiffers(want, before, c.input, c.toYpbpr) && c.on == TxWanted(want[c.input - 1], c.toYpbpr)
  }

  predicate SameTx(c: TxChange, d: TxChange) { c.input == d.input && c.toYpbpr == d.toYpbpr }

  // The list has each transcoder that differs once, and nothing else.
  ghost predicate ListsChanges(cs: seq<TxChange>, want: seq<InputSettings>, before: seq<InputSettings>, m: nat)
    requires m <= |want| == |before|
  {
    && (forall i :: 0 <= i < |cs| ==> IsTxChange(cs[i], want, before, m))
    && (forall i, j :: 0 <= i < j < |cs| ==> !SameTx(cs[i], cs[j]))
    && (forall n, k :: 1 <= n <= m && TxDiffers(want, before, n, k) ==> TxChange(n, k, TxWanted(want[n - 1], k)) in cs)
  }

  lemma {:induction false} ChangesExact(want: seq<InputSettings>, before: seq<InputSettings>, m: nat)
    requires m <= |want| == |before|
    ensures ListsChanges(Changes(want, before, m), want, before, m)
  {
    if m > 0 {
      ChangesExact(want, before, m - 1);
      var cs, more := Changes(want, before, m - 1), InputChanges(m, want[m - 1], before[m - 1]);
      forall i | 0 <= i < |cs + more|
        ensures IsTxChange((cs + more)[i], want, before, m)
      {
        assert i < |cs| ==> IsTxChange(cs[i], want, before, m - 1);
      }
      forall i, j | 0 <= i < j < |cs + more|
        ensures !SameTx((cs + more)[i], (cs + more)[j])
      {
        assert i < |cs| ==> IsTxChange(cs[i], want, before, m - 1);
        assert j < |cs| ==> IsTxChange(cs[j], want, before, m - 1);
      }
      forall n, k | 1 <= n <= m && TxDiffers(want, before, n, k)
        ensures TxChange(n, k, TxWanted(want[n - 1], k)) in cs + more
      {
        if n == m {
          assert TxChange(n, k, TxWanted(want[n - 1], k)) in more;
        }
      }
    }
  }

  // ----- Making the changes -----

  // What the bridge remembers once it has made the first m changes
  function Recorded(settings: seq<InputSettings>, cs: seq<TxChange>, m: nat): (r: seq<InputSettings>)
    requires m <= |cs| && forall i :: 0 <= i < m ==> 1 <= cs[i].input <= |settings|
    ensures |r| == |settings|
  {
    if m == 0 then settings
    else RecordedOne(Recorded(settings, cs, m - 1), cs[m - 1])
  }

  // What the line and the switch do
  datatype Line = Line(answers: nat -> bool, carries: nat -> bool, keeps: nat -> bool, reports: nat -> bool)

  function LineOf(svs: Svs): Line { Line(svs.answers, svs.carries, svs.keeps, svs.reports) }

  // Change i is command told + 2 i to show its input, command told + 2 i + 1 to turn its transcoder, and question
  // asked + i to check it.

  // The input shown once the first m changes have been made
  function ShownAfter(line: Line, told: nat, shown: nat, cs: seq<TxChange>, m: nat): nat
    requires m <= |cs|
  {
    if m == 0 then shown
    else if line.keeps(told + 2 * (m - 1)) then cs[m - 1].input
    else ShownAfter(line, told, shown, cs, m - 1)
  }

  // The input of change i is carried to the switch, shown and reported
  predicate Reached(line: Line, told: nat, shown: nat, cs: seq<TxChange>, i: nat)
    requires i < |cs|
  {
    && line.carries(told + 2 * i) && ShownAfter(line, told, shown, cs, i + 1) == cs[i].input
    && line.reports(told + 2 * i + 1)
  }

  predicate StepWorks(line: Line, told: nat, shown: nat, cs: seq<TxChange>, i: nat)
    requires i < |cs|
  {
    Reached(line, told, shown, cs, i) && line.carries(told + 2 * i + 1)
  }

  predicate StepsWork(line: Line, told: nat, shown: nat, cs: seq<TxChange>, m: nat)
    requires m <= |cs|
  {
    forall i :: 0 <= i < m ==> StepWorks(line, told, shown, cs, i)
  }

  // The transcoders once the first m changes have been made
  function TxAfter(line: Line, told: nat, tx: nat -> Transcoders, cs: seq<TxChange>, m: nat): nat -> Transcoders
    requires m <= |cs|
  {
    if m == 0 then tx
    else
      var before, c := TxAfter(line, told, tx, cs, m - 1), cs[m - 1];
      if line.keeps(told + 2 * (m - 1) + 1) then WithTx(before, c.input, c.toYpbpr, c.on) else before
  }

  predicate Confirmed(line: Line, told: nat, asked: nat, tx: nat -> Transcoders, cs: seq<TxChange>, i: nat)
    requires i < |cs|
  {
    line.answers(asked + i) && TxFlag(TxAfter(line, told, tx, cs, i + 1)(cs[i].input), cs[i].toYpbpr) == cs[i].on
  }

  // The inputs of the first m changes that were not confirmed
  function Unconfirmed(line: Line, told: nat, asked: nat, tx: nat -> Transcoders, cs: seq<TxChange>, m: nat): seq<nat>
    requires m <= |cs|
  {
    if m == 0 then []
    else
      Unconfirmed(line, told, asked, tx, cs, m - 1) +
      (if Confirmed(line, told, asked, tx, cs, m - 1) then [] else [cs[m - 1].input])
  }

  // A change that could not be made: the switch did not show its input, or could not be told
  datatype TxFailure = NotShown(input: nat) | NotTold(input: nat)

  function FailureAt(line: Line, told: nat, shown: nat, cs: seq<TxChange>, i: nat): Option<TxFailure>
    requires i <= |cs|
  {
    if i == |cs| then None
    else if Reached(line, told, shown, cs, i) then Some(NotTold(cs[i].input)) else Some(NotShown(cs[i].input))
  }

  function RecordedOne(settings: seq<InputSettings>, c: TxChange): (r: seq<InputSettings>)
    requires 1 <= c.input <= |settings|
    ensures |r| == |settings|
  {
    var s := settings[c.input - 1];
    settings[c.input - 1 := if c.toYpbpr then s.(rgbToYpbpr := c.on) else s.(ypbprToRgb := c.on)]
  }

  // Shows the input, turns its transcoder and asks for it
  method MakeChange(svs: Svs, c: TxChange) returns (failed: Option<TxFailure>, confirmed: bool)
    modifies svs`transcoders, svs`shown, svs`told, svs`asked
    ensures var line, told := LineOf(svs), old(svs.told);
            var shown := if line.carries(told) && line.keeps(told) then c.input else old(svs.shown);
            var reached := line.carries(told) && shown == c.input && line.reports(told + 1);
            failed == if !reached then Some(NotShown(c.input))
                      else if !line.carries(told + 1) then Some(NotTold(c.input)) else None
    ensures failed.None? ==> svs.told == old(svs.told) + 2 && svs.asked == old(svs.asked) + 1 && svs.shown == c.input
    ensures svs.transcoders ==
            if failed.None? && svs.keeps(old(svs.told) + 1)
            then WithTx(old(svs.transcoders), c.input, c.toYpbpr, c.on) else old(svs.transcoders)
    ensures failed.None? ==>
              (confirmed <==>
               svs.answers(old(svs.asked)) && TxFlag(svs.transcoders(c.input), c.toYpbpr) == c.on)
  {
    hide WithTx;
    confirmed := false;
    var there := svs.Show(c.input);
    if there {
      there := svs.Reports(c.input);
    }
    if !there {
      return Some(NotShown(c.input)), false;
    }
    var sent := svs.TurnTranscoder(c.toYpbpr, c.on);
    if !sent {
      return Some(NotTold(c.input)), false;
    }
    var answered, on := svs.AskTranscoder(c.input, c.toYpbpr);
    return None, answered && on == c.on;
  }

  lemma StepMore(line: Line, told: nat, asked: nat, shown: nat, tx: nat -> Transcoders, cs: seq<TxChange>, m: nat)
    requires m < |cs|
    ensures ShownAfter(line, told, shown, cs, m + 1) ==
            if line.keeps(told + 2 * m) then cs[m].input else ShownAfter(line, told, shown, cs, m)
    ensures TxAfter(line, told, tx, cs, m + 1) ==
            if line.keeps(told + 2 * m + 1)
            then WithTx(TxAfter(line, told, tx, cs, m), cs[m].input, cs[m].toYpbpr, cs[m].on)
            else TxAfter(line, told, tx, cs, m)
    ensures Unconfirmed(line, told, asked, tx, cs, m + 1) ==
            Unconfirmed(line, told, asked, tx, cs, m) +
            (if Confirmed(line, told, asked, tx, cs, m) then [] else [cs[m].input])
    ensures StepsWork(line, told, shown, cs, m + 1) <==>
            StepsWork(line, told, shown, cs, m) && StepWorks(line, told, shown, cs, m)
  {
    hide Confirmed;
    hide WithTx;
    hide StepWorks;
  }

  lemma RecordedMore(settings: seq<InputSettings>, cs: seq<TxChange>, m: nat)
    requires m < |cs| && forall i :: 0 <= i < |cs| ==> 1 <= cs[i].input <= |settings|
    ensures Recorded(settings, cs, m + 1) == RecordedOne(Recorded(settings, cs, m), cs[m])
    ensures Recorded(settings, cs, 0) == settings
  {
    hide RecordedOne;
  }

  // Each change in turn, up to the first that cannot be made, then back to the input that was shown
  method SetTranscoders(svs: Svs, cs: seq<TxChange>, before: seq<InputSettings>)
    returns (failed: Option<TxFailure>, unconfirmed: seq<nat>, settings: seq<InputSettings>, made: nat)
    requires forall i :: 0 <= i < |cs| ==> 1 <= cs[i].input <= |before|
    modifies svs`transcoders, svs`shown, svs`told, svs`asked
    ensures made <= |cs| && StepsWork(LineOf(svs), old(svs.told), old(svs.shown), cs, made)
    ensures made < |cs| ==> !StepWorks(LineOf(svs), old(svs.told), old(svs.shown), cs, made)
    ensures failed == FailureAt(LineOf(svs), old(svs.told), old(svs.shown), cs, made)
    ensures svs.transcoders == TxAfter(LineOf(svs), old(svs.told), old(svs.transcoders), cs, made)
    ensures unconfirmed == Unconfirmed(LineOf(svs), old(svs.told), old(svs.asked), old(svs.transcoders), cs, made)
    ensures settings == Recorded(before, cs, made)
    ensures if cs == [] then svs.told == old(svs.told) && svs.shown == old(svs.shown)
            else svs.told > 0 && (svs.carries(svs.told - 1) && svs.keeps(svs.told - 1) ==> svs.shown == old(svs.shown))
  {
    hide WithTx;
    hide TxFlag;
    hide ShownAfter;
    hide TxAfter;
    hide Unconfirmed;
    hide StepsWork;
    hide Recorded;
    hide RecordedOne;
    hide Confirmed;
    failed, unconfirmed, settings, made := None, [], before, 0;
    ghost var line, told, asked, tx := LineOf(svs), svs.told, svs.asked, svs.transcoders;
    var shown := svs.shown;
    NoneMade(line, told, asked, shown, tx, cs, before);
    if cs == [] {
      return;
    }
    while made < |cs|
      invariant made <= |cs| && StepsWork(line, told, shown, cs, made)
      invariant failed.None? && svs.told == told + 2 * made && svs.asked == asked + made
      invariant svs.shown == ShownAfter(line, told, shown, cs, made)
      invariant svs.transcoders == TxAfter(line, told, tx, cs, made)
      invariant unconfirmed == Unconfirmed(line, told, asked, tx, cs, made)
      invariant settings == Recorded(before, cs, made)
    {
      StepMore(line, told, asked, shown, tx, cs, made);
      RecordedMore(before, cs, made);
      ConfirmedIs(line, told, asked, tx, cs, made);
      var c, confirmed := cs[made], false;
      failed, confirmed := MakeChange(svs, c);
      if failed.Some? {
        break;
      }
      if !confirmed {
        unconfirmed := unconfirmed + [c.input];
      }
      settings, made := RecordedOne(settings, c), made + 1;
    }
    var _ := svs.Show(shown);
  }

  lemma ConfirmedIs(line: Line, told: nat, asked: nat, tx: nat -> Transcoders, cs: seq<TxChange>, i: nat)
    requires i < |cs|
    ensures var t := TxAfter(line, told, tx, cs, i + 1)(cs[i].input);
            Confirmed(line, told, asked, tx, cs, i) <==> line.answers(asked + i) && TxFlag(t, cs[i].toYpbpr) == cs[i].on
  {
  }

  lemma NoneMade(line: Line, told: nat, asked: nat, shown: nat, tx: nat -> Transcoders, cs: seq<TxChange>,
                 before: seq<InputSettings>)
    ensures Recorded(before, cs, 0) == before
    ensures ShownAfter(line, told, shown, cs, 0) == shown && TxAfter(line, told, tx, cs, 0) == tx
    ensures Unconfirmed(line, told, asked, tx, cs, 0) == [] && StepsWork(line, told, shown, cs, 0)
  {
  }

  // ----- What comes of it -----

  lemma {:induction false} RecordedAt(settings: seq<InputSettings>, cs: seq<TxChange>, m: nat, n: nat, k: bool)
    requires m <= |cs| && forall i :: 0 <= i < |cs| ==> 1 <= cs[i].input <= |settings|
    requires forall i, j :: 0 <= i < j < |cs| ==> !SameTx(cs[i], cs[j])
    requires 1 <= n <= |settings|
    ensures var r, s := Recorded(settings, cs, m)[n - 1], settings[n - 1];
            && r == s.(rgbToYpbpr := r.rgbToYpbpr, ypbprToRgb := r.ypbprToRgb)
            && (forall i :: 0 <= i < m && cs[i].input == n && cs[i].toYpbpr == k ==> TxWanted(r, k) == cs[i].on)
            && ((forall i :: 0 <= i < m ==> cs[i].input != n || cs[i].toYpbpr != k) ==>
                  TxWanted(r, k) == TxWanted(s, k))
  {
    hide RecordedOne;
    if m > 0 {
      RecordedAt(settings, cs, m - 1, n, k);
      RecordedOneAt(Recorded(settings, cs, m - 1), cs[m - 1], n, k);
      assert forall i :: 0 <= i < m - 1 ==> !SameTx(cs[i], cs[m - 1]);
    }
  }

  lemma RecordedOneAt(settings: seq<InputSettings>, c: TxChange, n: nat, k: bool)
    requires 1 <= c.input <= |settings| && 1 <= n <= |settings|
    ensures var r, s := RecordedOne(settings, c)[n - 1], settings[n - 1];
            && r == s.(rgbToYpbpr := r.rgbToYpbpr, ypbprToRgb := r.ypbprToRgb)
            && TxWanted(r, k) == if c.input == n && c.toYpbpr == k then c.on else TxWanted(s, k)
  {
  }

  // Once every change is made, the bridge remembers what was wanted of the transcoders and nothing else new.
  lemma RecordedIsWanted(want: seq<InputSettings>, before: seq<InputSettings>, n: nat)
    requires 1 <= n <= |want| == |before|
    ensures var cs := Changes(want, before, |want|);
            && (forall i :: 0 <= i < |cs| ==> 1 <= cs[i].input <= |before|)
            && Recorded(before, cs, |cs|)[n - 1] ==
               before[n - 1].(rgbToYpbpr := want[n - 1].rgbToYpbpr, ypbprToRgb := want[n - 1].ypbprToRgb)
  {
    var cs := Changes(want, before, |want|);
    ChangesExact(want, before, |want|);
    assert forall i :: 0 <= i < |cs| ==> IsTxChange(cs[i], want, before, |want|);
    RecordedFlag(want, before, n, true);
    RecordedFlag(want, before, n, false);
  }

  lemma RecordedFlag(want: seq<InputSettings>, before: seq<InputSettings>, n: nat, k: bool)
    requires 1 <= n <= |want| == |before|
    requires ListsChanges(Changes(want, before, |want|), want, before, |want|)
    requires forall i :: 0 <= i < |Changes(want, before, |want|)| ==>
                           1 <= Changes(want, before, |want|)[i].input <= |before|
    ensures var cs := Changes(want, before, |want|);
            var r, s := Recorded(before, cs, |cs|)[n - 1], before[n - 1];
            && r == s.(rgbToYpbpr := r.rgbToYpbpr, ypbprToRgb := r.ypbprToRgb)
            && TxWanted(r, k) == TxWanted(want[n - 1], k)
  {
    hide Changes;
    hide Recorded;
    var cs := Changes(want, before, |want|);
    RecordedAt(before, cs, |cs|, n, k);
    ChangeOrNot(cs, want, before, n, k);
  }

  // A transcoder has its change in the list, or none is wanted.
  lemma ChangeOrNot(cs: seq<TxChange>, want: seq<InputSettings>, before: seq<InputSettings>, n: nat, k: bool)
    requires 1 <= n <= |want| == |before| && ListsChanges(cs, want, before, |want|)
    ensures if TxDiffers(want, before, n, k)
            then exists i :: 0 <= i < |cs| && cs[i] == TxChange(n, k, TxWanted(want[n - 1], k))
            else forall i :: 0 <= i < |cs| ==> cs[i].input != n || cs[i].toYpbpr != k
  {
    assert forall i :: 0 <= i < |cs| ==> IsTxChange(cs[i], want, before, |want|);
  }

  // The switch takes every change
  predicate Obeyed(line: Line, told: nat, cs: seq<TxChange>) {
    forall i :: 0 <= i < |cs| ==> line.keeps(told + 2 * i + 1)
  }

  lemma {:induction false} TxAt(line: Line, told: nat, tx: nat -> Transcoders, cs: seq<TxChange>, m: nat, n: nat,
                                k: bool)
    requires m <= |cs| && forall i, j :: 0 <= i < j < |cs| ==> !SameTx(cs[i], cs[j])
    ensures var v := TxFlag(TxAfter(line, told, tx, cs, m)(n), k);
            && (forall i :: 0 <= i < m && cs[i].input == n && cs[i].toYpbpr == k ==>
                  v == if line.keeps(told + 2 * i + 1) then cs[i].on else TxFlag(tx(n), k))
            && ((forall i :: 0 <= i < m ==> cs[i].input != n || cs[i].toYpbpr != k) ==> v == TxFlag(tx(n), k))
  {
    if m > 0 {
      TxAt(line, told, tx, cs, m - 1, n, k);
      assert forall i :: 0 <= i < m - 1 ==> !SameTx(cs[i], cs[m - 1]);
    }
  }

  // What is remembered of a transcoder is what the switch has, where one is fitted
  predicate TxTrue(settings: seq<InputSettings>, tx: nat -> Transcoders, fitted: Transcoders, n: nat, k: bool)
    requires 1 <= n <= |settings|
  {
    TxWanted(settings[n - 1], k) == (TxFlag(fitted, k) && TxFlag(tx(n), k))
  }

  ghost predicate AllTxTrue(settings: seq<InputSettings>, tx: nat -> Transcoders, fitted: Transcoders) {
    forall n, k :: 1 <= n <= |settings| ==> TxTrue(settings, tx, fitted, n, k)
  }

  // Nothing is wanted of a transcoder that is not fitted
  ghost predicate OnlyFitted(want: seq<InputSettings>, before: seq<InputSettings>, fitted: Transcoders)
    requires |want| == |before|
  {
    forall n, k :: 1 <= n <= |want| && TxDiffers(want, before, n, k) ==> TxFlag(fitted, k)
  }

  lemma ChangeIsReal(want: seq<InputSettings>, before: seq<InputSettings>, tx: nat -> Transcoders, fitted: Transcoders,
                     c: TxChange)
    requires |want| == |before| && AllTxTrue(before, tx, fitted) && OnlyFitted(want, before, fitted)
    requires IsTxChange(c, want, before, |want|)
    ensures TxFlag(fitted, c.toYpbpr) && TxFlag(tx(c.input), c.toYpbpr) != c.on
  {
    assert TxTrue(before, tx, fitted, c.input, c.toYpbpr);
  }

  // Every change made, the switch's transcoders are as wanted if and only if it took every change.
  lemma TxWantedExact(line: Line, told: nat, tx: nat -> Transcoders, fitted: Transcoders, want: seq<InputSettings>,
                      before: seq<InputSettings>)
    requires |want| == |before| && AllTxTrue(before, tx, fitted) && OnlyFitted(want, before, fitted)
    ensures var cs := Changes(want, before, |want|);
            AllTxTrue(want, TxAfter(line, told, tx, cs, |cs|), fitted) <==> Obeyed(line, told, cs)
  {
    hide TxAfter;
    hide Changes;
    hide TxFlag;
    hide TxWanted;
    var cs := Changes(want, before, |want|);
    var after := TxAfter(line, told, tx, cs, |cs|);
    ChangesExact(want, before, |want|);
    if AllTxTrue(want, after, fitted) {
      forall i | 0 <= i < |cs|
        ensures line.keeps(told + 2 * i + 1)
      {
        assert IsTxChange(cs[i], want, before, |want|);
        ChangeIsReal(want, before, tx, fitted, cs[i]);
        TxAt(line, told, tx, cs, |cs|, cs[i].input, cs[i].toYpbpr);
        assert TxTrue(want, after, fitted, cs[i].input, cs[i].toYpbpr);
      }
    }
    if Obeyed(line, told, cs) {
      forall n, k | 1 <= n <= |want|
        ensures TxTrue(want, after, fitted, n, k)
      {
        TxAt(line, told, tx, cs, |cs|, n, k);
        ChangeOrNot(cs, want, before, n, k);
        assert TxTrue(before, tx, fitted, n, k);
      }
    }
  }

  // No change is left unconfirmed if and only if the switch took every change and answered for it.
  lemma ConfirmedExact(line: Line, told: nat, asked: nat, tx: nat -> Transcoders, fitted: Transcoders,
                       want: seq<InputSettings>, before: seq<InputSettings>)
    requires |want| == |before| && AllTxTrue(before, tx, fitted) && OnlyFitted(want, before, fitted)
    ensures var cs := Changes(want, before, |want|);
            Unconfirmed(line, told, asked, tx, cs, |cs|) == []
            <==> Obeyed(line, told, cs) && AllWork(line.answers, asked, |cs|)
  {
    hide TxAfter;
    hide Changes;
    hide TxFlag;
    hide TxWanted;
    hide Unconfirmed;
    var cs := Changes(want, before, |want|);
    ChangesExact(want, before, |want|);
    forall i | 0 <= i < |cs|
      ensures Confirmed(line, told, asked, tx, cs, i) <==> line.answers(asked + i) && line.keeps(told + 2 * i + 1)
    {
      assert IsTxChange(cs[i], want, before, |want|);
      ChangeIsReal(want, before, tx, fitted, cs[i]);
      TxAt(line, told, tx, cs, i + 1, cs[i].input, cs[i].toYpbpr);
    }
    NoneUnconfirmed(line, told, asked, tx, cs, |cs|);
    if Unconfirmed(line, told, asked, tx, cs, |cs|) == [] {
      forall i | 0 <= i < |cs|
        ensures line.keeps(told + 2 * i + 1)
      {
        assert Confirmed(line, told, asked, tx, cs, i);
      }
      forall j | asked <= j < asked + |cs|
        ensures line.answers(j)
      {
        assert Confirmed(line, told, asked, tx, cs, j - asked);
      }
    }
    if Obeyed(line, told, cs) && AllWork(line.answers, asked, |cs|) {
      forall i | 0 <= i < |cs|
        ensures Confirmed(line, told, asked, tx, cs, i)
      {
        assert line.answers(asked + i) && line.keeps(told + 2 * i + 1);
      }
    }
  }

  lemma {:induction false} NoneUnconfirmed(line: Line, told: nat, asked: nat, tx: nat -> Transcoders, cs: seq<TxChange>,
                                           m: nat)
    requires m <= |cs|
    ensures Unconfirmed(line, told, asked, tx, cs, m) == []
            <==> forall i :: 0 <= i < m ==> Confirmed(line, told, asked, tx, cs, i)
  {
    hide Confirmed;
    if m > 0 {
      NoneUnconfirmed(line, told, asked, tx, cs, m - 1);
    }
  }
}
