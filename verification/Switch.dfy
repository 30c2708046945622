// The switch, as the tasks that read and write its settings see it over the serial line.
module Switch {
  import opened Bytes
  import opened SvsConfig

  // Which of the two transcoders is on for an input
  datatype Transcoders = Transcoders(toYpbpr: bool, toRgb: bool)

  function TxFlag(t: Transcoders, toYpbpr: bool): bool { if toYpbpr then t.toYpbpr else t.toRgb }

  // The transcoders with one of an input's turned on or off
  function WithTx(tx: nat -> Transcoders, input: nat, toYpbpr: bool, on: bool): nat -> Transcoders {
    (n: nat) =>
      if n != input then tx(n) else if toYpbpr then tx(n).(toYpbpr := on) else tx(n).(toRgb := on)
  }

  // Whether the line carries a command, whether a question is answered, whether the switch does what it is told and
  // whether it reports the input it shows is the switch's own affair, command by command.
  class Svs {
    const answers: nat -> bool
    const carries: nat -> bool
    const keeps: nat -> bool
    const reports: nat -> bool
    var eeprom: Device
    var transcoders: nat -> Transcoders
    var shown: nat
    var asked: nat
    var told: nat

    constructor (eeprom: Device, transcoders: nat -> Transcoders, shown: nat, answers: nat -> bool,
                 carries: nat -> bool, keeps: nat -> bool, reports: nat -> bool)
      ensures this.eeprom == eeprom && this.transcoders == transcoders && this.shown == shown && asked == told == 0
      ensures this.answers == answers && this.carries == carries && this.keeps == keeps && this.reports == reports
    {
      this.eeprom, this.transcoders, this.shown, asked, told := eeprom, transcoders, shown, 0, 0;
      this.answers, this.carries, this.keeps, this.reports := answers, carries, keeps, reports;
    }

    // R<addr>
    method Ask(addr: nat) returns (r: Cell)
      requires addr < EEPROM_SIZE
      modifies this`asked
      ensures asked == old(asked) + 1
      ensures r == if answers(old(asked)) then eeprom[addr] else UNREAD
    {
      r := if answers(asked) then eeprom[addr] else UNREAD;
      asked := asked + 1;
    }

    // Y<n> or G<n>
    method AskTranscoder(n: nat, toYpbpr: bool) returns (answered: bool, on: bool)
      modifies this`asked
      ensures asked == old(asked) + 1 && answered == answers(old(asked))
      ensures answered ==> on == TxFlag(transcoders(n), toYpbpr)
    {
      answered, on := answers(asked), TxFlag(transcoders(n), toYpbpr);
      asked := asked + 1;
    }

    // W<value><addr>
    method Tell(addr: nat, v: byte) returns (sent: bool)
      requires addr < EEPROM_SIZE
      modifies this`eeprom, this`told
      ensures told == old(told) + 1 && sent == carries(old(told))
      ensures eeprom == if sent && keeps(old(told)) then old(eeprom)[addr := v] else old(eeprom)
    {
      sent := carries(told);
      if sent && keeps(told) {
        eeprom := eeprom[addr := v];
      }
      told := told + 1;
    }

    // SVS_Change_Input_<n>
    method Show(n: nat) returns (sent: bool)
      modifies this`shown, this`told
      ensures told == old(told) + 1 && sent == carries(old(told))
      ensures shown == if sent && keeps(old(told)) then n else old(shown)
    {
      sent := carries(told);
      if sent && keeps(told) {
        shown := n;
      }
      told := told + 1;
    }

    // SVS_RGB_Comp_ON and its like, for the input it shows
    method TurnTranscoder(toYpbpr: bool, on: bool) returns (sent: bool)
      modifies this`transcoders, this`told
      ensures told == old(told) + 1 && sent == carries(old(told))
      ensures transcoders ==
              if sent && keeps(old(told)) then WithTx(old(transcoders), shown, toYpbpr, on) else old(transcoders)
    {
      sent := carries(told);
      if sent && keeps(told) {
        transcoders := WithTx(transcoders, shown, toYpbpr, on);
      }
      told := told + 1;
    }

    // Whether it says in time that it shows the input
    method Reports(n: nat) returns (there: bool)
      ensures there <==> shown == n && reports(told)
    {
      there := shown == n && reports(told);
    }
  }
}
