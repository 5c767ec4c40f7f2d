/**
 * The session registry (src/services/ws_server.rs): an actor that handles
 * one message at a time, keeping every connected session under its id and
 * relaying each accepted batch of edits to the sessions solving the same
 * crossword in the same team. Text sent to a session's mailbox is returned
 * as a list of deliveries.
 */
module WsServer {
  import opened Wrappers
  import opened Errors
  import opened ApiModels
  import opened WsSession
  import SolutionService

  /** Text handed to the mailbox `addr` of session `to`. */
  datatype Delivery = Delivery(to: Uuid, addr: Addr, text: string)

  /** Two sessions are in one room when they solve the same crossword in the same team. */
  predicate SameRoom(a: SessionInfo, b: SessionInfo) {
    a.crossword == b.crossword && a.team == b.team
  }

  /** The sessions a list of deliveries reaches. */
  function Recipients(deliveries: seq<Delivery>): (ids: set<Uuid>)
    ensures forall i :: 0 <= i < |deliveries| ==> deliveries[i].to in ids
  {
    set i | 0 <= i < |deliveries| :: deliveries[i].to
  }

  /** No session receives two deliveries. */
  ghost predicate OnePerRecipient(deliveries: seq<Delivery>) {
    forall i, j :: 0 <= i < j < |deliveries| ==> deliveries[i].to != deliveries[j].to
  }

  class MoveServer {
    /** The connected sessions, each under its own id. */
    var sessions: map<Uuid, Connect>
    /** The solution table. */
    const store: SolutionService.SolutionStore

    /** Every registration is filed under its own session's id. */
    ghost predicate Valid()
      reads this
    {
      forall id :: id in sessions ==> sessions[id].session.id == id
    }

    /** The ids of the registered sessions in the room of `sender`. */
    function Room(sender: SessionInfo): (ids: set<Uuid>)
      reads this
      ensures forall id :: id in ids <==> id in sessions && SameRoom(sessions[id].session, sender)
    {
      set id | id in sessions && SameRoom(sessions[id].session, sender)
    }

    /**
     * What `broadcast_moves` sends: when the batch encodes, its text once to
     * every session of the sender's room, at the registered mailbox;
     * otherwise nothing.
     */
    ghost predicate IsBroadcast(deliveries: seq<Delivery>, sender: SessionInfo, items: seq<SolutionItemDto>,
                                encode: seq<SolutionItemDto> -> Result<string, string>)
      reads this
    {
      if encode(items).Err? then deliveries == []
      else
        && Recipients(deliveries) == Room(sender)
        && OnePerRecipient(deliveries)
        && Addressed(deliveries, encode(items).value)
    }

    /** Every delivery carries `text` to a registered session at its registered mailbox. */
    ghost predicate Addressed(deliveries: seq<Delivery>, text: string)
      reads this
    {
      forall i :: 0 <= i < |deliveries| ==>
        deliveries[i].to in sessions
        && deliveries[i].addr == sessions[deliveries[i].to].addr
        && deliveries[i].text == text
    }

    lemma DeliverySnoc(deliveries: seq<Delivery>, d: Delivery, text: string)
      requires Addressed(deliveries, text)
      requires d.to in sessions && d.addr == sessions[d.to].addr && d.text == text
      requires OnePerRecipient(deliveries) && d.to !in Recipients(deliveries)
      ensures Addressed(deliveries + [d], text)
      ensures OnePerRecipient(deliveries + [d])
      ensures Recipients(deliveries + [d]) == Recipients(deliveries) + {d.to}
    {
      RecipientsSnoc(deliveries, d);
      forall i, j | 0 <= i < j < |deliveries| + 1 ensures (deliveries + [d])[i].to != (deliveries + [d])[j].to {
        assert (deliveries + [d])[i] == deliveries[i];
        if j < |deliveries| {
          assert (deliveries + [d])[j] == deliveries[j];
        }
      }
      forall i | 0 <= i < |deliveries| + 1
        ensures (deliveries + [d])[i].to in sessions
        ensures (deliveries + [d])[i].addr == sessions[(deliveries + [d])[i].to].addr
        ensures (deliveries + [d])[i].text == text
      {
        if i < |deliveries| {
          assert (deliveries + [d])[i] == deliveries[i];
        }
      }
    }

    /** `MoveServer::new`: no session is registered. */
    constructor (store: SolutionService.SolutionStore)
      ensures sessions == map[] && this.store == store
      ensures Valid()
    {
      sessions := map[];
      this.store := store;
    }

    /**
     * The loop of `broadcast_moves`: walks the registered sessions in the
     * order the hash map chooses and hands `message` to each one in the
     * sender's room, the sender included.
     */
    method SendToRoom(sender: SessionInfo, message: string) returns (deliveries: seq<Delivery>)
      ensures Recipients(deliveries) == Room(sender)
      ensures OnePerRecipient(deliveries)
      ensures Addressed(deliveries, message)
    {
      deliveries := [];
      ghost var room := Room(sender);
      var remaining := sessions.Keys;
      while remaining != {}
        invariant remaining <= sessions.Keys
        invariant Recipients(deliveries) == room - remaining
        invariant Recipients(deliveries) !! remaining
        invariant OnePerRecipient(deliveries)
        invariant Addressed(deliveries, message)
        decreases |remaining|
      {
        var id :| id in remaining;
        var registration := sessions[id];
        if registration.session.crossword == sender.crossword && registration.session.team == sender.team {
          var d := Delivery(id, registration.addr, message);
          DeliverySnoc(deliveries, d, message);
          deliveries := deliveries + [d];
        }
        remaining := remaining - {id};
      }
    }

    /**
     * `broadcast_moves`: the batch is encoded (`encode` stands for the JSON
     * encoder) and the text goes to every session of the sender's room, the
     * sender included; a batch that does not encode reaches nobody.
     */
    method BroadcastMoves(sender: SessionInfo, solutionItems: seq<SolutionItemDto>,
                          encode: seq<SolutionItemDto> -> Result<string, string>)
      returns (deliveries: seq<Delivery>)
      requires Valid()
      ensures IsBroadcast(deliveries, sender, solutionItems, encode)
      ensures forall i :: 0 <= i < |deliveries| ==>
                deliveries[i].to in sessions && sessions[deliveries[i].to].session.id == deliveries[i].to
      ensures encode(solutionItems).Ok? ==> |deliveries| == |Room(sender)|
      ensures encode(solutionItems).Ok? && sender.id in sessions && SameRoom(sessions[sender.id].session, sender) ==>
                exists i :: 0 <= i < |deliveries| && deliveries[i].to == sender.id
    {
      match encode(solutionItems) {
        case Ok(message) =>
          deliveries := SendToRoom(sender, message);
          SenderCounted(deliveries, Room(sender), sender.id,
                        sender.id in sessions && SameRoom(sessions[sender.id].session, sender));
        case Err(_) =>
          deliveries := [];
      }
    }

    /**
     * The `Connect` handler: the session is registered under its id, replacing
     * any earlier registration, and the reply is the stored solution of its
     * room, or the display text of the error that prevented reading it.
     * `readFault` is the message of a failed read, `encode` the JSON encoder.
     */
    method HandleConnect(msg: Connect, readFault: Option<string>,
                         encode: seq<SolutionService.SolutionItem> -> Result<string, string>)
      returns (reply: string)
      requires Valid()
      modifies this
      ensures sessions == old(sessions)[msg.session.id := msg]
      ensures Valid()
      ensures readFault.Some? ==> reply == InternalPrefix + readFault.value
      ensures reply == match SolutionService.RetrieveAndSendSolution(store, msg.session.team, msg.session.crossword, readFault, encode)
                       case Ok(text) => text
                       case Err(e) => Display(e)
    {
      sessions := sessions[msg.session.id := msg];
      var result := SolutionService.RetrieveAndSendSolution(store, msg.session.team, msg.session.crossword, readFault, encode);
      reply := match result
        case Ok(m) => m
        case Err(e) => Display(e);
    }

    /** The `Disconnect` handler: exactly that id is forgotten, if it was there. */
    method HandleDisconnect(id: Uuid)
      requires Valid()
      modifies this
      ensures sessions == old(sessions) - {id}
      ensures Valid()
      ensures forall k :: k in sessions ==> sessions[k].session.id != id
    {
      sessions := sessions - {id};
    }

    /**
     * The `Move` handler: the batch is merged into the stored solution of the
     * sender's room and, when that succeeded, the whole incoming batch is
     * broadcast to the room. The registered sessions never change.
     */
    method HandleMove(msg: Move, readFault: Option<string>, writeFault: Option<string>,
                      encode: seq<SolutionItemDto> -> Result<string, string>)
      returns (deliveries: seq<Delivery>)
      requires Valid()
      modifies store
      ensures readFault.None? && writeFault.None? ==>
                SolutionService.MergedInto(old(store.solutions), store.solutions,
                                           (msg.sender.crossword, msg.sender.team),
                                           SolutionService.Stamp(msg.solutionItems, msg.sender.user))
                && IsBroadcast(deliveries, msg.sender, msg.solutionItems, encode)
      ensures readFault.Some? || writeFault.Some? ==> store.solutions == old(store.solutions) && deliveries == []
    {
      var result := SolutionService.UpdateSolution(store, msg.solutionItems, msg.sender.user,
                                                   msg.sender.team, msg.sender.crossword, readFault, writeFault);
      match result {
        case Ok(_) =>
          deliveries := BroadcastMoves(msg.sender, msg.solutionItems, encode);
        case Err(_) =>
          deliveries := [];
      }
    }
  }

  lemma RecipientsSnoc(deliveries: seq<Delivery>, d: Delivery)
    ensures Recipients(deliveries + [d]) == Recipients(deliveries) + {d.to}
  {
    var all := deliveries + [d];
    forall id | id in Recipients(all) ensures id in Recipients(deliveries) + {d.to} {
      var i :| 0 <= i < |all| && all[i].to == id;
      if i < |deliveries| {
        assert deliveries[i].to == id;
      }
    }
    forall id | id in Recipients(deliveries) ensures id in Recipients(all) {
      var i :| 0 <= i < |deliveries| && deliveries[i].to == id;
      assert all[i].to == id;
    }
    assert all[|deliveries|].to == d.to;
  }

  lemma SenderCounted(deliveries: seq<Delivery>, room: set<Uuid>, id: Uuid, inRoom: bool)
    requires OnePerRecipient(deliveries) && Recipients(deliveries) == room
    requires inRoom ==> id in room
    ensures |deliveries| == |room|
    ensures inRoom ==> exists i :: 0 <= i < |deliveries| && deliveries[i].to == id
  {
    DistinctRecipientsCount(deliveries);
  }

  /** Deliveries to distinct sessions are as many as the sessions they reach. */
  lemma {:induction false} DistinctRecipientsCount(deliveries: seq<Delivery>)
    requires OnePerRecipient(deliveries)
    ensures |Recipients(deliveries)| == |deliveries|
  {
    if deliveries != [] {
      var prefix := deliveries[..|deliveries| - 1];
      var last := deliveries[|deliveries| - 1];
      DistinctRecipientsCount(prefix);
      assert prefix + [last] == deliveries;
      RecipientsSnoc(prefix, last);
      forall i | 0 <= i < |prefix| ensures prefix[i].to != last.to {
        assert prefix[i] == deliveries[i];
      }
    }
  }
}
