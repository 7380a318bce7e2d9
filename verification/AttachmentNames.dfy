/**
 The stored name of an attachment: seven parts joined by underscores, cut stage by stage until the
 name fits the limit or the last stage gives up.
 */
module AttachmentNames {

  // Three characters of the 90 are kept free for ".gz".
  const MAX_FINAL_LENGTH: nat := 87
  const TRUNCATE_MIN: nat := 16

  datatype Parts = Parts(device: string, fileType: string, event: string, time: string, count: string,
                         file: string, extension: string)

  function Joined(p: Parts): string {
    "v3_" + p.device + "_" + p.fileType + "_" + p.event + "_" + p.time + "_" + p.count + "_" + p.file +
      (if p.extension == "" then "" else "." + p.extension)
  }

  // The length of the name those parts make.
  function JoinedLength(p: Parts): nat {
    8 + |p.device| + |p.fileType| + |p.event| + |p.time| + |p.count| + |p.file|
      + if p.extension == "" then 0 else 1 + |p.extension|
  }

  lemma JoinedHasLength(p: Parts)
    ensures |Joined(p)| == JoinedLength(p)
  {
  }

  predicate Fits(p: Parts) {
    JoinedLength(p) <= MAX_FINAL_LENGTH
  }

  function Min(a: nat, b: nat): nat {
    if a < b then a else b
  }

  // A string over its floor loses the characters the name is too long by, but not below the floor.
  function Cut(s: string, floor: nat, overBy: int): (r: string)
    requires overBy >= 0
    ensures r <= s
  {
    if |s| > floor then s[..if |s| - overBy > floor then |s| - overBy else floor] else s
  }

  function OverBy(p: Parts): nat
    requires !Fits(p)
  {
    JoinedLength(p) - MAX_FINAL_LENGTH
  }

  // --- The stages, by what they leave of each part ------------------------------------------------

  function ShortExtension(p: Parts): Parts {
    p.(extension := p.extension[..Min(3, |p.extension|)])
  }

  function ShortFile(p: Parts): Parts
    requires !Fits(p)
  {
    p.(file := Cut(p.file, TRUNCATE_MIN - 1, OverBy(p)))
  }

  // The event id does not survive this stage: the device id is put in its place.
  function ShortType(p: Parts): Parts
    requires !Fits(p)
  {
    p.(fileType := Cut(p.fileType, TRUNCATE_MIN, OverBy(p)), event := p.device)
  }

  function ShortEvent(p: Parts, event: string): Parts
    requires !Fits(p)
  {
    p.(event := Cut(event, TRUNCATE_MIN, OverBy(p)))
  }

  // The parts of the name that comes out of all stages.
  function Final(p: Parts): Parts {
    if Fits(p) then p
    else
      var p1 := ShortExtension(p);
      if Fits(p1) then p1
      else
        var p2 := ShortFile(p1);
        if Fits(p2) then p2
        else
          var p3 := ShortType(p2);
          if Fits(p3) then p3 else ShortEvent(p3, p.event)
  }

  method TruncateFileByExtn(name: string, p: Parts) returns (name': string, extension: string)
    requires name == Joined(p)
    ensures var q := if Fits(p) then p else ShortExtension(p); name' == Joined(q) && extension == q.extension
  {
    JoinedHasLength(p);
    name', extension := name, p.extension;
    if |name'| > MAX_FINAL_LENGTH {
      if |extension| > 3 {
        name' := name'[..|name'| - |extension| + 3];
        extension := extension[..3];
      }
    }
  }

  method TruncateFileByFileName(name: string, p: Parts) returns (name': string, file: string)
    requires name == Joined(p)
    ensures var q := if Fits(p) then p else ShortFile(p); name' == Joined(q) && file == q.file
  {
    JoinedHasLength(p);
    name', file := name, p.file;
    if |name'| > MAX_FINAL_LENGTH {
      var overBy := |name'| - MAX_FINAL_LENGTH;
      if |file| > TRUNCATE_MIN - 1 {
        file := file[..if TRUNCATE_MIN - 1 > |file| - overBy then TRUNCATE_MIN - 1 else |file| - overBy];
      }
      name' := Joined(p.(file := file));
    }
  }

  method TruncateFileByFileType(name: string, p: Parts) returns (name': string, fileType: string)
    requires name == Joined(p)
    ensures var q := if Fits(p) then p else ShortType(p); name' == Joined(q) && fileType == q.fileType
  {
    JoinedHasLength(p);
    name', fileType := name, p.fileType;
    if |name'| > MAX_FINAL_LENGTH {
      var overBy := |name'| - MAX_FINAL_LENGTH;
      if |fileType| > TRUNCATE_MIN {
        fileType := fileType[..if TRUNCATE_MIN > |fileType| - overBy then TRUNCATE_MIN else |fileType| - overBy];
      }
      name' := Joined(p.(fileType := fileType, event := p.device));
    }
  }

  // `shown` are the parts in the name as it stands, whose event slot may hold the device id.
  method TruncateFileByEventName(name: string, p: Parts, ghost shown: Parts) returns (name': string)
    requires name == Joined(shown) && shown.(event := p.event) == p
    ensures name' == Joined(if Fits(shown) then shown else ShortEvent(shown, p.event))
  {
    JoinedHasLength(shown);
    name' := name;
    if |name'| > MAX_FINAL_LENGTH {
      var overBy := |name'| - MAX_FINAL_LENGTH;
      var event := p.event;
      if |event| > TRUNCATE_MIN {
        event := event[..if TRUNCATE_MIN > |event| - overBy then TRUNCATE_MIN else |event| - overBy];
      }
      name' := Joined(p.(event := event));
    }
  }

  // The part of AcceptAttach that makes the name.
  method BuildName(p: Parts) returns (name: string)
    ensures name == Joined(Final(p))
  {
    var q := p;
    name := Joined(q);
    var extension, file, fileType;
    name, extension := TruncateFileByExtn(name, q);
    q := q.(extension := extension);
    name, file := TruncateFileByFileName(name, q);
    q := q.(file := file);
    ghost var shown := if Fits(q) then q else ShortType(q);
    name, fileType := TruncateFileByFileType(name, q);
    q := q.(fileType := fileType);
    name := TruncateFileByEventName(name, q, shown);
    FinalInStages(p);
  }

  // A stage that is not needed leaves every part as it is.
  lemma FinalInStages(p: Parts)
    ensures var p1 := if Fits(p) then p else ShortExtension(p);
      var p2 := if Fits(p1) then p1 else ShortFile(p1);
      var p3 := if Fits(p2) then p2 else ShortType(p2);
      Final(p) == if Fits(p3) then p3 else ShortEvent(p3, p.event)
  {
  }

  // --- What the limit buys -------------------------------------------------------------------

  // The name FinalizeOutFileName stores, or none when even the last stage is too long.
  function Stored(p: Parts, compressed: bool): (name: string)
    requires Fits(Final(p))
  {
    Joined(Final(p)) + if compressed then ".gz" else ""
  }

  lemma StoredNameFits(p: Parts, compressed: bool)
    requires Fits(Final(p))
    ensures |Stored(p, compressed)| <= 90
    ensures Fits(p) ==> Stored(p, false) == Joined(p)
  {
    JoinedHasLength(Final(p));
  }

  // The shortest name that leaves device, type, event, time and count whole.
  function Least(p: Parts): Parts {
    p.(file := p.file[..Min(TRUNCATE_MIN - 1, |p.file|)], extension := p.extension[..Min(3, |p.extension|)])
  }

  // Cutting the extension to 3 and the file name to 15 is enough exactly when the first two stages succeed;
  // then the five other parts are whole and the name is no shorter than it must be.
  lemma EnoughToCutFile(p: Parts)
    ensures var p1 := ShortExtension(p);
      Fits(Least(p)) <==> Fits(p) || Fits(p1) || Fits(ShortFile(p1))
    ensures Fits(Least(p)) ==>
      && Fits(Final(p))
      && Final(p) == p.(file := Final(p).file, extension := Final(p).extension)
      && Final(p).file <= p.file && Final(p).extension <= p.extension
      && (Final(p).file != p.file ==> JoinedLength(Final(p)) == MAX_FINAL_LENGTH)
  {
  }

  // --- When the later stages run ----------------------------------------------------------------------

  // How much of the type the third stage cuts away, once extension and file name are at their least.
  function TypeCut(p: Parts): nat
    requires !Fits(Least(p))
  {
    if |p.fileType| <= TRUNCATE_MIN then 0 else Min(OverBy(Least(p)), |p.fileType| - TRUNCATE_MIN)
  }

  // How far over the limit the third stage leaves the name, with the device id in the event's place.
  function LeftOver(p: Parts): int
    requires !Fits(Least(p))
  {
    JoinedLength(Least(p)) - TypeCut(p) - |p.event| + |p.device| - MAX_FINAL_LENGTH
  }

  // The least name does not fit, but with the type cut and the device id for the event id it does.
  predicate DeviceInEventSlot(p: Parts) {
    !Fits(Least(p)) && LeftOver(p) <= 0
  }

  // The event of an accepted name, for all parts: whole as long as cutting the file name is enough, then the
  // device id if that makes the name fit, and otherwise the event id cut by what the device id was over by.
  lemma EventOfFinal(p: Parts)
    ensures Final(p).event ==
      if Fits(Least(p)) then p.event
      else if DeviceInEventSlot(p) then p.device
      else Cut(p.event, TRUNCATE_MIN, LeftOver(p))
  {
    EnoughToCutFile(p);
    if !Fits(Least(p)) { LaterStages(p); }
  }

  // What the stages leave of the other parts, for all parts: device, time and count whole, and of each of the
  // rest a beginning of known length.
  lemma PartsOfFinal(p: Parts)
    ensures var f := Final(p);
      && f.device == p.device && f.time == p.time && f.count == p.count
      && f.extension == (if Fits(p) then p.extension else p.extension[..Min(3, |p.extension|)])
      && f.fileType == (if Fits(Least(p)) then p.fileType else p.fileType[..|p.fileType| - TypeCut(p)])
      && f.file <= p.file && f.fileType <= p.fileType
      && |f.file| == (if Fits(p) || Fits(ShortExtension(p)) || |p.file| < TRUNCATE_MIN then |p.file|
                      else if |p.file| - OverBy(ShortExtension(p)) > TRUNCATE_MIN - 1 then |p.file| - OverBy(ShortExtension(p))
                      else TRUNCATE_MIN - 1)
  {
    EnoughToCutFile(p);
    if !Fits(Least(p)) { LaterStages(p); }
  }

  lemma LaterStages(p: Parts)
    requires !Fits(Least(p))
    ensures var p3 := ShortType(Least(p));
      && JoinedLength(p3) == MAX_FINAL_LENGTH + LeftOver(p) && |p3.fileType| == |p.fileType| - TypeCut(p)
      && Final(p) == if Fits(p3) then p3 else ShortEvent(p3, p.event)
    ensures JoinedLength(Final(p)) == MAX_FINAL_LENGTH + LeftOver(p)
      + if LeftOver(p) <= 0 then 0 else |Cut(p.event, TRUNCATE_MIN, LeftOver(p))| - |p.device|
  {
    assert !Fits(p) && !Fits(ShortExtension(p));
    assert Fits(ShortFile(ShortExtension(p))) || ShortFile(ShortExtension(p)) == Least(p);
    EnoughToCutFile(p);
  }

  // Everything that can be cut at its floor.
  function Shortest(p: Parts): Parts {
    Least(p).(fileType := p.fileType[..Min(TRUNCATE_MIN, |p.fileType|)], event := p.event[..Min(TRUNCATE_MIN, |p.event|)])
  }

  // The last stage cuts the event id by what the name is over with the device id in its place. When the
  // device id is the shorter of the two and the event id stays above its floor, that is not enough.
  predicate EventCutTooLittle(p: Parts) {
    && !Fits(Least(p)) && |p.device| < |p.event|
    && LeftOver(p) > 0 && |p.event| - LeftOver(p) > TRUNCATE_MIN && |p.fileType| - TypeCut(p) <= TRUNCATE_MIN
    && JoinedLength(Least(p)) - TypeCut(p) > MAX_FINAL_LENGTH
  }

  // Whether some stage makes the name fit: when the shortest name does not, only the device id in the event's
  // place can help; when it does, the last stage still gives up on an event id that it cut too little.
  lemma AcceptedExactlyWhen(p: Parts)
    ensures Fits(Final(p)) <==> if Fits(Shortest(p)) then !EventCutTooLittle(p) else DeviceInEventSlot(p)
  {
    EnoughToCutFile(p);
    if !Fits(Least(p)) {
      LaterStages(p);
      assert JoinedLength(Shortest(p)) == JoinedLength(Least(p))
        - (|p.fileType| - Min(TRUNCATE_MIN, |p.fileType|)) - (|p.event| - Min(TRUNCATE_MIN, |p.event|));
      hide Final; hide ShortType; hide ShortEvent; hide JoinedLength; hide Least; hide Shortest;
    }
  }

  // One family of names that the last stage gives up on, though 86 characters would have been enough.
  lemma GivesUpTooEarly(p: Parts)
    requires |p.device| == 20 && |p.fileType| == 16 && |p.event| == 30 && |p.time| == 13 && |p.count| == 1
    requires |p.file| == 8 && |p.extension| == 3
    ensures JoinedLength(Shortest(p)) == 86 && !Fits(Final(p)) && JoinedLength(Final(p)) == 97
  {
  }

  // --- Fields ------------------------------------------------------------------------------------

  // The pieces of a string between underscores.
  function Fields(s: string): (fields: seq<string>)
    ensures |fields| >= 1
  {
    if s == "" then [""]
    else
      var later := Fields(s[1..]);
      if s[0] == '_' then [""] + later else [[s[0]] + later[0]] + later[1..]
  }

  lemma {:induction false} FirstField(a: string, rest: string)
    requires '_' !in a
    ensures Fields(a + "_" + rest) == [a] + Fields(rest)
  {
    var s := a + "_" + rest;
    if a == "" {
      assert s[1..] == rest;
    } else {
      assert s[1..] == a[1..] + "_" + rest;
      FirstField(a[1..], rest);
      assert [s[0]] + a[1..] == a;
    }
  }

  predicate Plain(p: Parts) {
    '_' !in p.device && '_' !in p.fileType && '_' !in p.event && '_' !in p.time && '_' !in p.count
  }

  function Tail(p: Parts): string {
    p.file + if p.extension == "" then "" else "." + p.extension
  }

  lemma JoinedFields(p: Parts, suffix: string)
    requires Plain(p)
    ensures Fields(Joined(p) + suffix) == ["v3", p.device, p.fileType, p.event, p.time, p.count] + Fields(Tail(p) + suffix)
  {
    hide Fields;
    var t5 := Tail(p) + suffix;
    var t4 := p.count + "_" + t5;
    var t3 := p.time + "_" + t4;
    var t2 := p.event + "_" + t3;
    var t1 := p.fileType + "_" + t2;
    var t0 := p.device + "_" + t1;
    FirstField(p.count, t5);
    FirstField(p.time, t4);
    FirstField(p.event, t3);
    FirstField(p.fileType, t2);
    FirstField(p.device, t1);
    FirstField("v3", t0);
    JoinedFromEnd(p, suffix);
    var f5 := Fields(t5);
    assert [p.fileType] + ([p.event] + ([p.time] + ([p.count] + f5))) == [p.fileType, p.event, p.time, p.count] + f5;
    assert ["v3"] + ([p.device] + ([p.fileType, p.event, p.time, p.count] + f5))
        == ["v3", p.device, p.fileType, p.event, p.time, p.count] + f5;
  }

  lemma JoinedFromEnd(p: Parts, suffix: string)
    ensures Joined(p) + suffix ==
      "v3" + "_" + (p.device + "_" + (p.fileType + "_" + (p.event + "_" + (p.time + "_" + (p.count + "_" + (Tail(p) + suffix))))))
  {
  }

  lemma FinalStaysPlain(p: Parts)
    requires Plain(p)
    ensures Plain(Final(p)) && Final(p).count == p.count && Final(p).device == p.device
  {
  }

  // MAIN RESULT. Through every stage the sixth field of the stored name is the attachment count.
  lemma SixthFieldIsCount(p: Parts, compressed: bool)
    requires Plain(p) && Fits(Final(p))
    ensures |Fields(Stored(p, compressed))| > 5 && Fields(Stored(p, compressed))[5] == p.count
  {
    FinalStaysPlain(p);
    JoinedFields(Final(p), if compressed then ".gz" else "");
  }

  // Attachments with different counts never get the same name, whatever their files are called.
  lemma NamesDistinct(p: Parts, q: Parts, pCompressed: bool, qCompressed: bool)
    requires Plain(p) && Plain(q) && Fits(Final(p)) && Fits(Final(q)) && p.count != q.count
    ensures Stored(p, pCompressed) != Stored(q, qCompressed)
  {
    SixthFieldIsCount(p, pCompressed);
    SixthFieldIsCount(q, qCompressed);
  }

  // The event field of an accepted name. Unless the device id begins the event id, it holds the device id
  // exactly under the condition above; otherwise it holds the event id, whole or cut.
  lemma EventFieldOfStored(p: Parts, compressed: bool)
    requires Plain(p) && Fits(Final(p))
    ensures var fields := Fields(Stored(p, compressed));
      && |fields| > 5 && fields[..3] == ["v3", p.device, Final(p).fileType] && fields[4] == p.time
      && (if DeviceInEventSlot(p) then fields[3] == p.device else fields[3] <= p.event)
      && (!(p.device <= p.event) ==> (fields[3] == p.device <==> DeviceInEventSlot(p)))
      && (Fits(Least(p)) ==> fields[3] == p.event)
  {
    EventOfFinal(p);
    FinalStaysPlain(p);
    JoinedFields(Final(p), if compressed then ".gz" else "");
  }

  // A type of 80 characters is enough for the event id "e" to be lost from an accepted name.
  lemma EventIdCanBeLost(fileType: string)
    requires |fileType| == 80
    ensures var p := Parts("d", fileType, "e", "1", "0", "f", "");
      DeviceInEventSlot(p) && Fits(Final(p)) && Final(p).event == "d" && |Final(p).fileType| == 74
  {
  }

  // What a stored name says, for attachment number n: each piece of information in its place, and every
  // character of it when the whole name has at most 87.
  predicate IsStoredName(name: string, deviceId: string, fileType: string, eventId: string, time: string, n: nat,
                         file: string, extension: string, compressed: bool)
  {
    var whole := "v3_" + deviceId + "_" + fileType + "_" + eventId + "_" + time + "_" + Decimal(n) + "_" + file
      + (if extension == "" then "" else "." + extension);
    && (|whole| <= 87 ==> name == whole + if compressed then ".gz" else "")
    && |name| <= 90
    && ('_' !in deviceId && '_' !in time ==>
          var fields := Fields(name);
          && |fields| > 5
          && fields[0] == "v3" && fields[1] == deviceId && fields[2] <= fileType && fields[4] == time && fields[5] == Decimal(n)
          && if DeviceInEventSlot(Parts(deviceId, fileType, eventId, time, Decimal(n), file, extension))
             then fields[3] == deviceId else fields[3] <= eventId)
  }

  lemma StoredMeans(deviceId: string, fileType: string, eventId: string, time: string, n: nat, file: string,
                    extension: string, compressed: bool)
    requires '_' !in fileType && '_' !in eventId
    requires Fits(Final(Parts(deviceId, fileType, eventId, time, Decimal(n), file, extension)))
    ensures IsStoredName(Stored(Parts(deviceId, fileType, eventId, time, Decimal(n), file, extension), compressed),
                         deviceId, fileType, eventId, time, n, file, extension, compressed)
  {
    hide Fields; hide Decimal; hide DeviceInEventSlot; hide Final; hide Fits; hide Stored; hide Joined;
    var p := Parts(deviceId, fileType, eventId, time, Decimal(n), file, extension);
    DecimalIsNotEmpty(n);
    StoredWhole(p, compressed);
    if Plain(p) { FieldsOfStored(p, compressed); }
  }

  lemma FieldsOfStored(p: Parts, compressed: bool)
    requires Plain(p) && Fits(Final(p))
    ensures var fields := Fields(Stored(p, compressed));
      && |fields| > 5
      && fields[0] == "v3" && fields[1] == p.device && fields[2] <= p.fileType && fields[4] == p.time && fields[5] == p.count
      && if DeviceInEventSlot(p) then fields[3] == p.device else fields[3] <= p.event
  {
    hide Fields; hide DeviceInEventSlot; hide Final; hide Stored; hide TypeCut; hide Least;
    PartsOfFinal(p);
    EventFieldOfStored(p, compressed);
    SixthFieldIsCount(p, compressed);
    var fields := Fields(Stored(p, compressed));
    assert fields[..3][0] == fields[0] && fields[..3][1] == fields[1] && fields[..3][2] == fields[2];
  }

  lemma StoredWhole(p: Parts, compressed: bool)
    requires Fits(Final(p))
    ensures |Joined(p)| <= 87 ==> Stored(p, compressed) == Joined(p) + if compressed then ".gz" else ""
    ensures |Stored(p, compressed)| <= 90
    ensures Joined(p) == "v3_" + p.device + "_" + p.fileType + "_" + p.event + "_" + p.time + "_" + p.count + "_" + p.file
      + (if p.extension == "" then "" else "." + p.extension)
  {
    JoinedHasLength(p);
    StoredNameFits(p, compressed);
  }

  // --- Decimal numbers --------------------------------------------------------------------------------

  function Digit(n: nat): char
    requires n < 10
  {
    "0123456789"[n]
  }

  function Decimal(n: nat): string {
    if n < 10 then [Digit(n)] else Decimal(n / 10) + [Digit(n % 10)]
  }

  lemma {:induction false} DecimalIsInjective(m: nat, n: nat)
    requires Decimal(m) == Decimal(n)
    ensures m == n
  {
    var s := Decimal(m);
    assert s[|s| - 1] == Digit(m % 10) == Digit(n % 10);
    if m >= 10 && n >= 10 {
      assert s[..|s| - 1] == Decimal(m / 10) == Decimal(n / 10);
      DecimalIsInjective(m / 10, n / 10);
    } else if m >= 10 {
      DecimalIsNotEmpty(m / 10);
    } else if n >= 10 {
      DecimalIsNotEmpty(n / 10);
    }
  }

  // The number that a string of digits stands for.
  function ValueOf(s: string): int {
    if s == "" then 0 else 10 * ValueOf(s[..|s| - 1]) + (s[|s| - 1] as int - '0' as int)
  }

  // A number prints as digits that stand for it, without leading zeros.
  lemma {:induction false} DecimalMeans(n: nat)
    ensures forall c :: c in Decimal(n) ==> '0' <= c <= '9'
    ensures ValueOf(Decimal(n)) == n && |Decimal(n)| > 0 && (Decimal(n)[0] == '0' ==> n == 0)
  {
    assert forall d: nat :: d < 10 ==> "0123456789"[d] as int == '0' as int + d;
    if n < 10 {
      assert Decimal(n)[..0] == "";
    } else {
      DecimalMeans(n / 10);
      assert Decimal(n)[..|Decimal(n)| - 1] == Decimal(n / 10);
    }
  }

  lemma DecimalIsNotEmpty(n: nat)
    ensures |Decimal(n)| > 0 && '_' !in Decimal(n)
  {
  }
}
