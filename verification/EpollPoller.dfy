/** The poller's objects: channels shared with their users, and the map that refers to them. */
module EpollPollers {
  import opened Pollers

  class IoChannel {
    const fd: Fd
    var state: ChannelState
    var events: Mask

    constructor (fd: Fd)
      ensures View() == Channel(fd, NEW, NONE)
    {
      this.fd, state, events := fd, NEW, NONE;
    }

    function View(): Channel
      reads this
    {
      Channel(fd, state, events)
    }

    method AddEvent(event: Mask) returns (added: bool)
      modifies `events
      ensures events == With(old(events), event) && (added <==> old(events) & event == 0)
    {
      if events & event != 0 {
        return false;
      }
      events := events | event;
      return true;
    }

    method CancelEvent(event: Mask) returns (cancelled: bool)
      modifies `events
      ensures events == Without(old(events), event) && (cancelled <==> old(events) & event != 0)
    {
      if events & event == 0 {
        return false;
      }
      events := events & !event;
      return true;
    }

    method ClearEvent() returns (cleared: bool)
      modifies `events
      ensures events == NONE && (cleared <==> old(events) != NONE)
    {
      if events == NONE {
        return false;
      }
      events := NONE;
      return true;
    }
  }

  class EpollPoller {
    var channelMap: map<Fd, IoChannel>
    /** The interest set of the epoll descriptor. */
    var kernel: map<Fd, Interest<IoChannel>>
    ghost var live: set<IoChannel>
    ghost var told: map<IoChannel, Mask>

    ghost function View(): State<IoChannel>
      reads this, live
    {
      State(map c | c in live :: c.View(), channelMap, kernel, told)
    }

    ghost predicate Valid()
      reads this, live
    {
      Inv(View())
    }

    constructor ()
      ensures Valid() && View() == Init()
    {
      channelMap, kernel, live, told := map[], map[], {}, map[];
    }

    method HasChannel(channel: IoChannel) returns (has: bool)
      requires channel in live
      ensures has == Pollers.HasChannel(View(), channel)
    {
      return channel.fd in channelMap && channelMap[channel.fd] == channel;
    }

    /** epoll_ctl, called only where the kernel accepts it. */
    method UpdateKernel(op: Control, channel: IoChannel)
      requires channel in live && ControlKernel(View(), op, channel).Ok?
      modifies `kernel
      ensures Ok(View()) == ControlKernel(old(View()), op, channel)
      ensures op != DEL ==>
        channel.fd in kernel && kernel[channel.fd].channel == channel && AsksFor(kernel[channel.fd].events, channel.events)
    {
      AskedBits(channel.events);
      match op
      case ADD => kernel := kernel[channel.fd := Interest(Asked(channel.events), channel)];
      case MOD => kernel := kernel[channel.fd := Interest(Asked(channel.events), channel)];
      case DEL => kernel := kernel - {channel.fd};
    }

    method SetState(channel: IoChannel, state: ChannelState)
      requires channel in live
      modifies channel`state
      ensures View() == Put(old(View()), channel, old(channel.View()).(state := state))
    {
      channel.state := state;
    }

    method Register(channel: IoChannel)
      requires channel in live
      modifies `channelMap
      ensures View() == old(View()).(registered := old(channelMap)[channel.fd := channel])
    {
      channelMap := channelMap[channel.fd := channel];
    }

    method Unregister(channel: IoChannel)
      requires channel in live
      modifies `channelMap
      ensures View() == old(View()).(registered := old(channelMap) - {channel.fd})
    {
      channelMap := channelMap - {channel.fd};
    }

    ghost method Tell(channel: IoChannel)
      requires channel in live
      modifies `told
      ensures View() == old(View()).(told := old(told)[channel := channel.events])
    {
      told := told[channel := channel.events];
    }

    method UpdateChannel(channel: IoChannel)
      requires Valid() && channel in live
      modifies this, channel
      ensures Valid() && live == old(live)
      ensures Ok(View()) == UpdateStep(old(View()), channel) && channel.events == old(channel.events)
      ensures old(channel.state) != EXIST || channel.events != 0 ==>
        channel.fd in kernel && kernel[channel.fd].channel == channel && AsksFor(kernel[channel.fd].events, channel.events)
    {
      hide AsksFor, Asked;
      UpdateIsSound(View(), channel);
      var state := channel.state;
      if state == NEW || state == DISCARD {
        AddChannel(channel);
      } else {
        ModifyChannel(channel);
      }
    }

    method AddChannel(channel: IoChannel)
      requires Valid() && channel in live && channel.state != EXIST
      modifies this, channel
      ensures live == old(live) && Ok(View()) == UpdateStep(old(View()), channel)
    {
      assert Mirrored(View(), channel);
      Tell(channel);
      if channel.state == NEW {
        assert channel.fd !in channelMap;
        Register(channel);
      } else {
        assert channel.fd in channelMap && channelMap[channel.fd] == channel;
      }
      SetState(channel, EXIST);
      UpdateKernel(ADD, channel);
    }

    method ModifyChannel(channel: IoChannel)
      requires Valid() && channel in live && channel.state == EXIST
      modifies this, channel
      ensures live == old(live) && Ok(View()) == UpdateStep(old(View()), channel)
    {
      assert Mirrored(View(), channel);
      assert channel.fd in channelMap && channelMap[channel.fd] == channel;
      Tell(channel);
      if channel.events == NONE {
        UpdateKernel(DEL, channel);
        SetState(channel, DISCARD);
      } else {
        UpdateKernel(MOD, channel);
      }
    }

    method RemoveChannel(channel: IoChannel)
      requires Valid() && channel in live && Pollers.HasChannel(View(), channel) && channel.events == NONE
      modifies this, channel
      ensures Valid() && live == old(live)
      ensures Ok(View()) == RemoveStep(old(View()), channel)
    {
      RemoveIsSound(View(), channel);
      TakeOut(channel);
    }

    method TakeOut(channel: IoChannel)
      requires Valid() && channel in live && Pollers.HasChannel(View(), channel) && channel.events == NONE
      modifies this, channel
      ensures live == old(live) && Ok(View()) == RemoveStep(old(View()), channel)
    {
      assert Mirrored(View(), channel);
      var state := channel.state;
      assert state == EXIST || state == DISCARD;
      Unregister(channel);
      if state == EXIST {
        UpdateKernel(DEL, channel);
      }
      SetState(channel, NEW);
    }
  }

  lemma UpdateIsSound(s: State<IoChannel>, k: IoChannel)
    requires Inv(s) && k in s.channels
    ensures UpdateStep(s, k).Ok? && Inv(UpdateStep(s, k).state)
    ensures var c, t := s.channels[k], UpdateStep(s, k).state;
      && k in t.channels && t.channels[k].events == c.events
      && (c.state != EXIST || c.events != 0 ==>
            c.fd in t.kernel && t.kernel[c.fd].channel == k && AsksFor(t.kernel[c.fd].events, c.events))
  {
    UpdatedKeeps(s, k);
  }

  lemma RemoveIsSound(s: State<IoChannel>, k: IoChannel)
    requires Inv(s) && k in s.channels && Pollers.HasChannel(s, k) && s.channels[k].events == NONE
    ensures RemoveStep(s, k).Ok? && Inv(RemoveStep(s, k).state)
  {
    RemovedKeeps(s, k);
  }
}
