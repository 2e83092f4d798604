/** xpra's per-window damage and capture state: the XDamage handle, the XShm image wrapper
    and the named backing pixmap of one client window, and the XShm switches. The X server's
    answers are parameters of the methods; the requests the handler sends are recorded, in
    order, in a ghost trace. */
module WindowDamage {
  import opened Wrappers

  /** X resource ids are never zero, so a held id is always truthy. */
  type XID = x: int | x > 0 witness 1

  /** `geometry_with_border`: position, size and border width. */
  datatype Geometry = Geometry(x: int, y: int, width: int, height: int, borderWidth: int)

  /** The GDK client window, known by its X id. */
  datatype ClientWindow = ClientWindow(xid: XID)

  /** An XShm image wrapper; its size is the window size when it was created. */
  datatype ShmWrapper = ShmWrapper(id: nat, width: int, height: int)

  /** The wrapper around the window's named backing pixmap. */
  datatype PixmapWrapper = PixmapWrapper(pixmap: XID, width: int, height: int)

  /** The three flags `XShmWrapper.setup()` returns. */
  datatype ShmSetupResult = ShmSetupResult(initOk: bool, retryWindow: bool, xshmFailed: bool)

  /** A captured image; pixels are not modelled. */
  datatype Image = Image(id: nat)

  /** An `XError` raised by an X call, with its message. */
  datatype XError = XError(msg: string)

  /** What escapes a handler method: `Unmanageable`, an `XError` nobody catches, or the
      `AttributeError` of asking a missing client window for its geometry. */
  datatype Failure = Unmanageable(window: XID) | Raised(error: XError) | NoClientWindow

  /** What the X server answers during one `get_xshm_handle`: whether it supports XShm, the
      client window's current geometry, the wrapper `get_XShmWrapper` creates (if any) and
      that wrapper's `setup()` flags. */
  datatype XShmAnswers = XShmAnswers(
    serverHasXShm: bool, windowGeometry: Geometry, wrapper: Option<ShmWrapper>, setup: ShmSetupResult)

  /** What the X server answers during one `get_image`: the pixmap wrapper naming yields
      (none, or an error), the XShm answers, and the outcome of the XShm and pixmap reads. */
  datatype CaptureAnswers = CaptureAnswers(
    namedPixmap: Result<Option<PixmapWrapper>, XError>, xshm: XShmAnswers,
    shmImage: Result<Option<Image>, XError>, pixmapImage: Result<Option<Image>, XError>)

  /** A request sent to the X server or to a wrapper. */
  datatype Effect =
    | DamageCreate(window: XID)
    | DamageSubtract(damage: XID)
    | DamageDestroy(damage: XID)
    | AddReceiver
    | RemoveReceiver
    | ShmAllocate(window: XID)
    | ShmSetup(shm: ShmWrapper)
    | ShmDiscard(shm: ShmWrapper)
    | ShmCleanup(shm: ShmWrapper)
    | ShmRead(shm: ShmWrapper, pixmap: XID, x: int, y: int, width: int, height: int)
    | NamePixmap(window: XID)
    | PixmapCleanup(contents: PixmapWrapper)
    | PixmapRead(contents: PixmapWrapper, x: int, y: int, width: int, height: int)

  /** `min(available, requested)`: the size the slow path reads, never more than either
      the pixmap or the request, and the request itself when the pixmap is large enough. */
  function Clamp(available: int, requested: int): (r: int)
    ensures r <= available && r <= requested
    ensures r == available || r == requested
    ensures requested <= available ==> r == requested
  {
    if available < requested then available else requested
  }

  /** The requests of `invalidate_pixmap`: the pixmap wrapper is cleaned up if there is one. */
  function PixmapRelease(contents: Option<PixmapWrapper>): seq<Effect> {
    if contents.Some? then [PixmapCleanup(contents.value)] else []
  }

  /** The requests of `destroy_damage_handle`, in order. */
  function TeardownEffects(contents: Option<PixmapWrapper>, damage: Option<XID>, shm: Option<ShmWrapper>): seq<Effect> {
    PixmapRelease(contents)
    + (if damage.Some? then [DamageDestroy(damage.value)] else [])
    + (if shm.Some? then [ShmCleanup(shm.value)] else [])
  }

  /** Teardown releases every held handle, the XShm wrapper with `cleanup()`, and never
      discards or subtracts. */
  lemma TeardownReleasesAll(contents: Option<PixmapWrapper>, damage: Option<XID>, shm: Option<ShmWrapper>)
    ensures contents.Some? ==> PixmapCleanup(contents.value) in TeardownEffects(contents, damage, shm)
    ensures damage.Some? ==> DamageDestroy(damage.value) in TeardownEffects(contents, damage, shm)
    ensures shm.Some? ==> ShmCleanup(shm.value) in TeardownEffects(contents, damage, shm)
    ensures forall e :: e in TeardownEffects(contents, damage, shm) ==> !e.ShmDiscard? && !e.DamageSubtract?
    ensures |TeardownEffects(contents, damage, shm)| ==
      (if contents.Some? then 1 else 0) + (if damage.Some? then 1 else 0) + (if shm.Some? then 1 else 0)
  {
  }

  /** The requests of `acknowledge_changes`, in order. */
  function AckEffects(shm: Option<ShmWrapper>, damage: Option<XID>, hasWindow: bool, contents: Option<PixmapWrapper>): seq<Effect> {
    (if shm.Some? then [ShmDiscard(shm.value)] else [])
    + (if damage.Some? && hasWindow then [DamageSubtract(damage.value)] + PixmapRelease(contents) else [])
  }

  /** Acknowledging discards the XShm image but never cleans the wrapper up, and it keeps the
      damage handle. */
  lemma AckKeepsHandles(shm: Option<ShmWrapper>, damage: Option<XID>, hasWindow: bool, contents: Option<PixmapWrapper>)
    ensures forall e :: e in AckEffects(shm, damage, hasWindow, contents) ==> !e.ShmCleanup? && !e.DamageDestroy?
    ensures shm.Some? ==> AckEffects(shm, damage, hasWindow, contents)[0] == ShmDiscard(shm.value)
    ensures damage.Some? ==> (DamageSubtract(damage.value) in AckEffects(shm, damage, hasWindow, contents) <==> hasWindow)
  {
  }

  /** The requests of a fresh negotiation, in order: the stale wrapper (if any) is cleaned up
      before the new one is allocated and set up. */
  function NegotiationEffects(window: XID, stale: Option<ShmWrapper>, wrapper: Option<ShmWrapper>): seq<Effect> {
    (if stale.Some? then [ShmCleanup(stale.value)] else [])
    + [ShmAllocate(window)]
    + (if wrapper.Some? then [ShmSetup(wrapper.value)] else [])
  }

  lemma StaleCleanedBeforeAllocation(window: XID, stale: Option<ShmWrapper>, wrapper: Option<ShmWrapper>)
    requires stale.Some?
    ensures var t := NegotiationEffects(window, stale, wrapper);
      t[0] == ShmCleanup(stale.value) && t[1] == ShmAllocate(window)
  {
  }

  /** None of the requests reads the pixmap. */
  predicate NoPixmapReads(t: seq<Effect>) {
    forall i :: 0 <= i < |t| ==> !t[i].PixmapRead?
  }

  /** The wrapper's size is the window's current size. */
  predicate SameSize(shm: ShmWrapper, geometry: Geometry) {
    shm.width == geometry.width && shm.height == geometry.height
  }

  /** The part of a handler's state `get_xshm_handle` reads and changes: the held wrapper,
      the handler's own XShm switch and the shared one. */
  datatype XShmState = XShmState(handle: Option<ShmWrapper>, useXShm: bool, enabled: bool)

  /** The outcome of one `get_xshm_handle`: its result, the state after it and the requests
      it sent, in order. */
  datatype XShmStep = XShmStep(result: Result<Option<ShmWrapper>, Failure>, after: XShmState, requests: seq<Effect>)

  /** `has_xshm` in state `s`. */
  predicate XShmOn(s: XShmState, serverHasXShm: bool) {
    s.useXShm && s.enabled && serverHasXShm
  }

  /** `get_xshm_handle` negotiates a new wrapper: XShm is on, and no wrapper is held, or the
      held one is of another size than the (still present) client window. */
  predicate Negotiates(s: XShmState, hasWindow: bool, answers: XShmAnswers) {
    XShmOn(s, answers.serverHasXShm)
    && (s.handle.Some? ==> hasWindow && !SameSize(s.handle.value, answers.windowGeometry))
  }

  /** `get_xshm_handle` from state `s`, for a handler of window `window` that still has
      (`hasWindow`) a client window. Without XShm nothing happens. A held wrapper needs the
      client window's geometry, so without a window the call fails before any request; a
      held wrapper of the window's size is returned alone. Otherwise a held wrapper is
      cleaned up and a new one negotiated: it is kept only when its `setup()` succeeds,
      `retry_window` false switches XShm off for this window and `xshm_failed` for every
      window. No switch is ever turned on, nothing reads the pixmap, and only the stale
      wrapper is ever cleaned up, before the new one is allocated. */
  function XShmStepOf(s: XShmState, hasWindow: bool, window: XID, answers: XShmAnswers): (t: XShmStep)
    ensures (t.after.useXShm ==> s.useXShm) && (t.after.enabled ==> s.enabled)
    ensures !XShmOn(s, answers.serverHasXShm) ==> t == XShmStep(Ok(None), s, [])
    ensures t.result.Err? <==> XShmOn(s, answers.serverHasXShm) && s.handle.Some? && !hasWindow
    ensures t.result.Err? ==> t.result.error == NoClientWindow && t.after == s && t.requests == []
    ensures t.result.Ok? && t.result.value.Some? ==>
      t.after.handle == t.result.value && (t.result == Ok(s.handle) || t.result.value == answers.wrapper)
    ensures XShmOn(s, answers.serverHasXShm) && s.handle.Some? && hasWindow && SameSize(s.handle.value, answers.windowGeometry) ==>
      t == XShmStep(Ok(s.handle), s, [])
    ensures t.requests == [] ==> t.after == s
    ensures NoPixmapReads(t.requests)
    ensures forall e :: e in t.requests && e.ShmCleanup? ==> s.handle == Some(e.shm) && t.requests[0] == e
    ensures t.requests != [] ==> ShmAllocate(window) in t.requests
    ensures t.requests != [] && t.after.handle.Some? ==> ShmSetup(t.after.handle.value) in t.requests
    ensures Negotiates(s, hasWindow, answers) ==> t.requests == NegotiationEffects(window, s.handle, answers.wrapper)
    ensures Negotiates(s, hasWindow, answers) && s.handle.Some? ==> t.requests[0] == ShmCleanup(s.handle.value)
    ensures (Negotiates(s, hasWindow, answers) && s.handle.Some? && answers.wrapper.Some?
      && SameSize(answers.wrapper.value, answers.windowGeometry)) ==> t.result != Ok(s.handle) && t.after.handle != s.handle
    ensures Negotiates(s, hasWindow, answers) && answers.wrapper.None? ==>
      t.result == Ok(None) && t.after == s.(handle := None)
    ensures Negotiates(s, hasWindow, answers) && answers.wrapper.Some? ==>
      && t.result == (if answers.setup.initOk then Ok(answers.wrapper) else Ok(None))
      && t.after.handle == t.result.value
      && (t.after.useXShm <==> answers.setup.retryWindow)
      && (t.after.enabled <==> !answers.setup.xshmFailed)
    ensures !Negotiates(s, hasWindow, answers) ==> t.after == s && t.requests == []
  {
    if !XShmOn(s, answers.serverHasXShm) then XShmStep(Ok(None), s, [])
    else if s.handle.Some? && !hasWindow then XShmStep(Err(NoClientWindow), s, [])
    else if s.handle.Some? && SameSize(s.handle.value, answers.windowGeometry) then XShmStep(Ok(s.handle), s, [])
    else
      match answers.wrapper
      case None => XShmStep(Ok(None), s.(handle := None), NegotiationEffects(window, s.handle, None))
      case Some(w) =>
        var kept := if answers.setup.initOk then Some(w) else None;
        var after := XShmState(kept, s.useXShm && answers.setup.retryWindow, s.enabled && !answers.setup.xshmFailed);
        XShmStep(Ok(kept), after, NegotiationEffects(window, s.handle, Some(w)))
  }

  /** A wrapper just negotiated for the window's current size is reused by the next call at
      that size while XShm stays on: same result, no request, nothing changes. */
  lemma XShmHandleReused(s: XShmState, window: XID, answers: XShmAnswers)
    requires XShmStepOf(s, true, window, answers).result.Ok?
    requires XShmStepOf(s, true, window, answers).result.value.Some?
    requires SameSize(XShmStepOf(s, true, window, answers).result.value.value, answers.windowGeometry)
    requires XShmOn(XShmStepOf(s, true, window, answers).after, answers.serverHasXShm)
    ensures var t := XShmStepOf(s, true, window, answers);
      XShmStepOf(t.after, true, window, answers) == XShmStep(t.result, t.after, [])
  {
  }

  /** The XShm read `get_image` sends after the step `t`: one when `t` yields a wrapper. */
  function ShmReadOf(t: XShmStep, pixmap: XID, x: int, y: int, width: int, height: int): seq<Effect> {
    if t.result.Ok? && t.result.value.Some? then [ShmRead(t.result.value.value, pixmap, x, y, width, height)] else []
  }

  /** The image the XShm attempt of `get_image` yields after the step `t`: the read's image
      when `t` yields a wrapper and the read gives one without error. */
  function ShmImageOf(t: XShmStep, shmImage: Result<Option<Image>, XError>): (img: Option<Image>)
    ensures img.Some? <==> t.result.Ok? && t.result.value.Some? && shmImage.Ok? && shmImage.value.Some?
    ensures img.Some? ==> shmImage == Ok(img)
  {
    if t.result.Ok? && t.result.value.Some? && shmImage.Ok? then shmImage.value else None
  }

  /** `WindowDamageHandler.XShmEnabled`: one flag shared by every handler. */
  class XShmLatch {
    var enabled: bool

    constructor (enabled: bool)
      ensures this.enabled == enabled
    {
      this.enabled := enabled;
    }
  }

  class WindowDamageHandler {
    const latch: XShmLatch
    const xid: XID
    var clientWindow: Option<ClientWindow>
    var useXShm: bool
    var damageHandle: Option<XID>
    var xshmHandle: Option<ShmWrapper>
    var contentsHandle: Option<PixmapWrapper>
    var borderWidth: int
    ghost var effects: seq<Effect>

    /** A pixmap is only ever held while there is a client window: `destroy` drops the window
        before releasing the pixmap, and `get_contents_handle` names none without a window. */
    ghost predicate Valid()
      reads this
    {
      clientWindow.None? ==> contentsHandle.None?
    }

    /** `has_xshm`. */
    predicate HasXShm(serverHasXShm: bool)
      reads this, latch
    {
      useXShm && latch.enabled && serverHasXShm
    }

    /** The handler's XShm state. */
    ghost function XShmNow(): XShmState
      reads this, latch
    {
      XShmState(xshmHandle, useXShm, latch.enabled)
    }

    /** `__init__`: remembers the window and its id; no handle is held yet. */
    constructor (window: ClientWindow, useXShm: bool, latch: XShmLatch)
      ensures Valid()
      ensures this.latch == latch && xid == window.xid && clientWindow == Some(window)
      ensures this.useXShm == useXShm && borderWidth == 0
      ensures damageHandle == None && xshmHandle == None && contentsHandle == None
      ensures effects == []
    {
      this.latch := latch;
      xid := window.xid;
      clientWindow := Some(window);
      this.useXShm := useXShm;
      damageHandle := None;
      xshmHandle := None;
      contentsHandle := None;
      borderWidth := 0;
      effects := [];
    }

    /** `invalidate_pixmap`: afterwards no pixmap is held; a held one is cleaned up, and
        without one nothing happens. */
    method InvalidatePixmap()
      modifies this`contentsHandle, this`effects
      ensures Valid() && contentsHandle == None
      ensures effects == old(effects) + PixmapRelease(old(contentsHandle))
      ensures old(contentsHandle).None? ==> effects == old(effects)
    {
      var ch := contentsHandle;
      if ch.Some? {
        contentsHandle := None;
        effects := effects + [PixmapCleanup(ch.value)];
      }
    }

    /** `setup`: the pixmap is invalidated first; a vanished window raises `Unmanageable`
        before anything else happens, else the border width is recorded and the damage
        handle created (an `XError` from that escapes), and the receiver added. */
    method Setup(geometry: Option<Geometry>, damage: Result<XID, XError>) returns (r: Result<(), Failure>)
      modifies this`contentsHandle, this`borderWidth, this`damageHandle, this`effects
      ensures Valid() && contentsHandle == None
      ensures geometry.None? ==>
        r == Err(Unmanageable(xid)) && borderWidth == old(borderWidth) && damageHandle == old(damageHandle)
        && effects == old(effects) + PixmapRelease(old(contentsHandle))
      ensures geometry.Some? ==> borderWidth == geometry.value.borderWidth
      ensures geometry.Some? && damage.Err? ==>
        r == Err(Raised(damage.error)) && damageHandle == old(damageHandle)
        && effects == old(effects) + PixmapRelease(old(contentsHandle)) + [DamageCreate(xid)]
      ensures geometry.Some? && damage.Ok? ==>
        r == Ok(()) && damageHandle == Some(damage.value)
        && effects == old(effects) + PixmapRelease(old(contentsHandle)) + [DamageCreate(xid), AddReceiver]
    {
      InvalidatePixmap();
      if geometry.None? {
        return Err(Unmanageable(xid));
      }
      borderWidth := geometry.value.borderWidth;
      effects := effects + [DamageCreate(xid)];
      if damage.Err? {
        return Err(Raised(damage.error));
      }
      damageHandle := Some(damage.value);
      effects := effects + [AddReceiver];
      return Ok(());
    }

    /** `destroy`: a second call only warns; the first drops the client window before
        tearing down, so afterwards there is never a window. */
    method Destroy()
      requires Valid()
      modifies this`clientWindow, this`contentsHandle, this`damageHandle, this`xshmHandle, this`effects
      ensures Valid() && clientWindow == None
      ensures old(clientWindow).None? ==> unchanged(this)
      ensures old(clientWindow).Some? ==>
        contentsHandle == None && damageHandle == None && xshmHandle == None
        && effects == old(effects) + [RemoveReceiver]
                      + TeardownEffects(old(contentsHandle), old(damageHandle), old(xshmHandle))
    {
      if clientWindow.None? {
        return;
      }
      clientWindow := None;
      DoDestroy();
    }

    /** `do_destroy`: removes the event receiver, then releases the handles. */
    method DoDestroy()
      modifies this`contentsHandle, this`damageHandle, this`xshmHandle, this`effects
      ensures Valid() && contentsHandle == None && damageHandle == None && xshmHandle == None
      ensures effects == old(effects) + [RemoveReceiver]
                         + TeardownEffects(old(contentsHandle), old(damageHandle), old(xshmHandle))
    {
      effects := effects + [RemoveReceiver];
      DestroyDamageHandle();
    }

    /** `destroy_damage_handle`: afterwards no handle of any kind is held; the pixmap, the
        damage handle and the XShm wrapper are released in that order. */
    method DestroyDamageHandle()
      modifies this`contentsHandle, this`damageHandle, this`xshmHandle, this`effects
      ensures Valid() && contentsHandle == None && damageHandle == None && xshmHandle == None
      ensures effects == old(effects) + TeardownEffects(old(contentsHandle), old(damageHandle), old(xshmHandle))
    {
      InvalidatePixmap();
      var dh := damageHandle;
      if dh.Some? {
        damageHandle := None;
        effects := effects + [DamageDestroy(dh.value)];
      }
      var sh := xshmHandle;
      if sh.Some? {
        xshmHandle := None;
        effects := effects + [ShmCleanup(sh.value)];
      }
      InvalidatePixmap();
    }

    /** `acknowledge_changes`: the XShm image is discarded but the wrapper kept; damage is
        subtracted and the pixmap invalidated only with both a damage handle and a window. */
    method AcknowledgeChanges()
      requires Valid()
      modifies this`contentsHandle, this`effects
      ensures Valid()
      ensures contentsHandle == if damageHandle.Some? && clientWindow.Some? then None else old(contentsHandle)
      ensures effects == old(effects) + AckEffects(xshmHandle, damageHandle, clientWindow.Some?, old(contentsHandle))
    {
      var sh := xshmHandle;
      var dh := damageHandle;
      if sh.Some? {
        effects := effects + [ShmDiscard(sh.value)];
      }
      if dh.Some? && clientWindow.Some? {
        effects := effects + [DamageSubtract(dh.value)];
        InvalidatePixmap();
      }
    }

    /** `get_xshm_handle`: the result, the held wrapper, both switches and the requests
        sent are those of `XShmStepOf` from the state before the call. */
    method GetXShmHandle(answers: XShmAnswers) returns (r: Result<Option<ShmWrapper>, Failure>)
      modifies this`xshmHandle, this`useXShm, this`effects, latch
      ensures var t := XShmStepOf(old(XShmNow()), clientWindow.Some?, xid, answers);
        r == t.result && XShmNow() == t.after && effects == old(effects) + t.requests
      ensures (useXShm ==> old(useXShm)) && (latch.enabled ==> old(latch.enabled))
      ensures Negotiates(old(XShmNow()), clientWindow.Some?, answers) && answers.wrapper.Some? ==>
        && (r == Ok(xshmHandle)) && (xshmHandle.Some? <==> answers.setup.initOk)
        && (useXShm <==> answers.setup.retryWindow) && (latch.enabled <==> !answers.setup.xshmFailed)
      ensures Negotiates(old(XShmNow()), clientWindow.Some?, answers) && old(xshmHandle).Some? ==>
        |effects| > |old(effects)| && effects[|old(effects)|] == ShmCleanup(old(xshmHandle).value)
    {
      if !HasXShm(answers.serverHasXShm) {
        return Ok(None);
      }
      ghost var stale: Option<ShmWrapper> := None;
      if xshmHandle.Some? {
        if clientWindow.None? {
          return Err(NoClientWindow);
        }
        if !SameSize(xshmHandle.value, answers.windowGeometry) {
          stale := xshmHandle;
          effects := effects + [ShmCleanup(xshmHandle.value)];
          xshmHandle := None;
        }
      }
      if xshmHandle.None? {
        effects := effects + [ShmAllocate(xid)];
        xshmHandle := answers.wrapper;
        if xshmHandle.None? {
          return Ok(None);
        }
        effects := effects + [ShmSetup(xshmHandle.value)];
        var setup := answers.setup;
        if !setup.initOk {
          xshmHandle := None;
        }
        if !setup.retryWindow {
          useXShm := false;
        }
        if setup.xshmFailed {
          latch.enabled := false;
        }
      }
      return Ok(xshmHandle);
    }

    /** `get_contents_handle`: without a window nothing happens and there is no pixmap; a
        held pixmap is reused; otherwise the pixmap is named, an `XError` doing so leaving
        none. The result is always the pixmap now held. */
    method GetContentsHandle(named: Result<Option<PixmapWrapper>, XError>) returns (h: Option<PixmapWrapper>)
      requires Valid()
      modifies this`contentsHandle, this`effects
      ensures Valid() && h == contentsHandle
      ensures clientWindow == old(clientWindow)
      ensures old(clientWindow).None? ==> h == None && unchanged(this)
      ensures old(contentsHandle).Some? ==> unchanged(this)
      ensures clientWindow.Some? && old(contentsHandle).None? ==>
        contentsHandle == (if named.Ok? then named.value else None) && effects == old(effects) + [NamePixmap(xid)]
    {
      if clientWindow.None? {
        return None;
      }
      if contentsHandle.None? {
        effects := effects + [NamePixmap(xid)];
        if named.Ok? {
          contentsHandle := named.value;
        }
      }
      return contentsHandle;
    }

    /** `get_image`. Without a window (always so after `destroy`) nothing happens; a held
        pixmap is reused, else one is named, and without a pixmap there is no image and XShm
        is not touched. With a pixmap, `get_xshm_handle` runs: the XShm image is returned,
        with no pixmap read, exactly when it yields a wrapper whose read gives an image;
        otherwise the pixmap is read at the requested origin, clamped to the pixmap's size,
        and a read error gives no image instead of escaping. */
    method GetImage(x: int, y: int, width: int, height: int, answers: CaptureAnswers)
      returns (img: Option<Image>, ghost fast: bool)
      requires Valid()
      modifies this`contentsHandle, this`xshmHandle, this`useXShm, this`effects, latch
      ensures Valid()
      ensures latch.enabled ==> old(latch.enabled)
      ensures useXShm ==> old(useXShm)
      ensures old(clientWindow).None? ==> img == None && !fast && unchanged(this) && unchanged(latch)
      ensures contentsHandle.None? ==> img == None && !fast
      ensures |effects| >= |old(effects)| && effects[..|old(effects)|] == old(effects)
      ensures fast ==> NoPixmapReads(effects[|old(effects)|..])
      ensures old(clientWindow).Some? ==>
        var naming := if old(contentsHandle).Some? then [] else [NamePixmap(xid)];
        contentsHandle == (if old(contentsHandle).Some? then old(contentsHandle)
                           else if answers.namedPixmap.Ok? then answers.namedPixmap.value else None)
        && (contentsHandle.None? ==> XShmNow() == old(XShmNow()) && effects == old(effects) + naming)
        && (contentsHandle.Some? ==>
              var t := XShmStepOf(old(XShmNow()), true, xid, answers.xshm);
              var shmImg := ShmImageOf(t, answers.shmImage);
              var tried := old(effects) + naming + t.requests
                           + ShmReadOf(t, contentsHandle.value.pixmap, x, y, width, height);
              XShmNow() == t.after && (fast <==> shmImg.Some?)
              && (shmImg.Some? ==> img == shmImg && effects == tried)
              && (shmImg.None? ==>
                    img == (if answers.pixmapImage.Ok? then answers.pixmapImage.value else None)
                    && effects == tried + [PixmapRead(contentsHandle.value, x, y,
                                   Clamp(contentsHandle.value.width, width), Clamp(contentsHandle.value.height, height))]))
    {
      ghost var s0 := XShmNow();
      ghost var naming := if contentsHandle.Some? then [] else [NamePixmap(xid)];
      var handle := GetContentsHandle(answers.namedPixmap);
      if handle.None? {
        return None, false;
      }
      assert effects == old(effects) + naming;
      ghost var t := XShmStepOf(s0, true, xid, answers.xshm);
      img := TryXShmImage(handle.value, x, y, width, height, answers.xshm, answers.shmImage);
      ghost var tried := old(effects) + naming + t.requests + ShmReadOf(t, handle.value.pixmap, x, y, width, height);
      assert effects == tried;
      if img.Some? {
        assert effects[|old(effects)|..] == naming + effects[|old(effects)| + |naming|..];
        return img, true;
      }
      img := ReadPixmapImage(handle.value, x, y, width, height, answers.pixmapImage);
      fast := false;
    }

    /** The XShm attempt of `get_image`: a result only when an XShm wrapper is available and
        its read gives a truthy image; its errors are caught. It never reads the pixmap. */
    method TryXShmImage(contents: PixmapWrapper, x: int, y: int, width: int, height: int,
                        answers: XShmAnswers, shmImage: Result<Option<Image>, XError>)
      returns (img: Option<Image>)
      requires clientWindow.Some?
      modifies this`xshmHandle, this`useXShm, this`effects, latch
      ensures latch.enabled ==> old(latch.enabled)
      ensures useXShm ==> old(useXShm)
      ensures var t := XShmStepOf(old(XShmNow()), true, xid, answers);
        XShmNow() == t.after && img == ShmImageOf(t, shmImage)
        && effects == old(effects) + t.requests + ShmReadOf(t, contents.pixmap, x, y, width, height)
      ensures |effects| >= |old(effects)| && NoPixmapReads(effects[|old(effects)|..])
    {
      var shm := GetXShmHandle(answers);
      if shm.value.None? {
        return None;
      }
      ghost var negotiated := effects;
      effects := effects + [ShmRead(shm.value.value, contents.pixmap, x, y, width, height)];
      assert effects[|old(effects)|..] == negotiated[|old(effects)|..] + [effects[|effects| - 1]];
      if shmImage.Ok? && shmImage.value.Some? {
        return shmImage.value;
      }
      return None;
    }

    /** The pixmap read of `get_image`: the read is clamped to the pixmap's size, and an
        error gives no image. */
    method ReadPixmapImage(contents: PixmapWrapper, x: int, y: int, width: int, height: int,
                           pixmapImage: Result<Option<Image>, XError>)
      returns (img: Option<Image>)
      modifies this`effects
      ensures effects == old(effects) + [PixmapRead(contents, x, y, Clamp(contents.width, width), Clamp(contents.height, height))]
      ensures img == if pixmapImage.Ok? then pixmapImage.value else None
    {
      var w := Clamp(contents.width, width);
      var h := Clamp(contents.height, height);
      effects := effects + [PixmapRead(contents, x, y, w, h)];
      if pixmapImage.Err? {
        return None;
      }
      return pixmapImage.value;
    }

    /** `do_xpra_reparent_event`: only the pixmap is invalidated. */
    method ReparentEvent()
      modifies this`contentsHandle, this`effects
      ensures Valid() && contentsHandle == None
      ensures effects == old(effects) + PixmapRelease(old(contentsHandle))
    {
      InvalidatePixmap();
    }

    /** `xpra_unmap_event`: only the pixmap is invalidated. Unlike the other event handlers
        its name lacks the `do_` prefix of a signal's default handler, so the signal alone
        does not run it; this is its body when it is called. */
    method UnmapEvent()
      modifies this`contentsHandle, this`effects
      ensures Valid() && contentsHandle == None
      ensures effects == old(effects) + PixmapRelease(old(contentsHandle))
    {
      InvalidatePixmap();
    }

    /** `do_xpra_configure_event`: records the new border width, then invalidates the pixmap. */
    method ConfigureEvent(eventBorderWidth: int)
      modifies this`borderWidth, this`contentsHandle, this`effects
      ensures Valid() && contentsHandle == None && borderWidth == eventBorderWidth
      ensures effects == old(effects) + PixmapRelease(old(contentsHandle))
    {
      borderWidth := eventBorderWidth;
      InvalidatePixmap();
    }
  }
}
