/** The desktop/mobile switcher built around a portfolio details slider:
    each slide is labelled with a device, the first slide of each device
    is the one that device's button shows, and the button for the device
    shown is the pressed one. */
module DeviceSwitcher {
  import opened Dom

  datatype Device = Desktop | Mobile

  /** A slide: its classes, its `data-device` value and its `style.display`. */
  datatype Slide = Slide(classes: set<string>, device: Option<Device>, display: string)

  /** A switch button: its classes, its `aria-pressed` attribute (empty
      before it is first set) and whether it is disabled. */
  datatype Button = Button(classes: set<string>, ariaPressed: string, disabled: bool)

  /** The device a slide is labelled with: a slide with class `mob` is a
      mobile slide; otherwise only the first slide is a desktop one. */
  function DeviceLabel(slide: Slide, index: int): (d: Device)
    ensures d == Desktop <==> index == 0 && "mob" !in slide.classes
  {
    if "mob" in slide.classes then Mobile
    else if index == 0 then Desktop
    else Mobile
  }

  /** Every slide carries the label `DeviceLabel` gives it. */
  predicate Labelled(slides: seq<Slide>) {
    forall i | 0 <= i < |slides| :: slides[i].device == Some(DeviceLabel(slides[i], i))
  }

  predicate IsDesktopSlide(slide: Slide) {
    slide.device == Some(Desktop)
  }

  predicate IsMobileSlide(slide: Slide) {
    slide.device == Some(Mobile)
  }

  /** Where the labelling puts the first desktop and the first mobile slide:
      the desktop slide, if any, is slide 0; the first mobile slide is
      slide 0 or 1, and is missing only when there is a single slide
      without `mob`. */
  lemma {:induction false} LabelledIndices(slides: seq<Slide>)
    requires Labelled(slides) && 0 < |slides|
    ensures FindIndex(slides, IsDesktopSlide) == if "mob" in slides[0].classes then -1 else 0
    ensures FindIndex(slides, IsMobileSlide) ==
      if "mob" in slides[0].classes then 0 else if 1 < |slides| then 1 else -1
  {
    assert slides[0].device == Some(DeviceLabel(slides[0], 0));
    if "mob" in slides[0].classes {
      forall i | 0 <= i < |slides|
        ensures !IsDesktopSlide(slides[i])
      {
        assert slides[i].device == Some(DeviceLabel(slides[i], i));
      }
    } else if 1 < |slides| {
      assert slides[1].device == Some(DeviceLabel(slides[1], 1));
    }
  }

  /** The fallback that sets `mobileIndex` to 1 when no mobile slide was
      found among several slides can never fire. */
  lemma MobileFallbackUnreachable(slides: seq<Slide>)
    requires Labelled(slides) && 1 < |slides|
    ensures FindIndex(slides, IsMobileSlide) != -1
  {
    LabelledIndices(slides);
  }

  /** The slide index a device's button shows. */
  function TargetIndex(device: Device, desktopIndex: int, mobileIndex: int): (i: int)
    ensures device == Mobile ==> i == mobileIndex
    ensures device == Desktop ==> i == desktopIndex
  {
    if device == Mobile then mobileIndex else desktopIndex
  }

  /** `getPreferredDeviceForViewport`: on a narrow viewport mobile if there
      is a mobile slide, otherwise desktop if there is a desktop slide. */
  function PreferredDevice(narrowViewport: bool, desktopIndex: int, mobileIndex: int): (d: Device)
    ensures narrowViewport ==> (d == Mobile <==> 0 <= mobileIndex)
    ensures !narrowViewport ==> (d == Desktop <==> 0 <= desktopIndex)
  {
    if narrowViewport then (if mobileIndex >= 0 then Mobile else Desktop)
    else if desktopIndex >= 0 then Desktop else Mobile
  }

  /** For labelled slides the preferred device always has a slide to show,
      whatever the viewport. */
  lemma PreferredDeviceHasSlide(slides: seq<Slide>, narrowViewport: bool)
    requires Labelled(slides) && 0 < |slides|
    ensures var d, m := FindIndex(slides, IsDesktopSlide), FindIndex(slides, IsMobileSlide);
            0 <= TargetIndex(PreferredDevice(narrowViewport, d, m), d, m) < |slides|
  {
    LabelledIndices(slides);
  }

  /** One slider with its switch controls. */
  class Switcher {
    var slides: seq<Slide>
    var sliderClasses: set<string>
    var desktopBtn: Button
    var mobileBtn: Button
    var desktopIndex: int
    var mobileIndex: int
    /** Whether a swiper instance drives the slider. */
    const hasSwiper: bool
    /** The slide the swiper was last sent to, -1 before any. */
    var swiperIndex: int

    /** Sets a slider up: labels its slides, finds each device's slide,
        disables the button of a device without one and shows the slide of
        the device preferred for the viewport, sending the swiper there when
        there is one. A slider without slides is skipped by the caller. */
    constructor(slides0: seq<Slide>, sliderClasses0: set<string>, hasSwiper: bool, narrowViewport: bool)
      requires 0 < |slides0|
      ensures |slides| == |slides0| && Labelled(slides)
      ensures forall i | 0 <= i < |slides| :: slides[i].classes == slides0[i].classes
      ensures "portfolio-device-switcher" in sliderClasses
      ensures desktopIndex == if "mob" in slides0[0].classes then -1 else 0
      ensures mobileIndex == if "mob" in slides0[0].classes then 0 else if 1 < |slides0| then 1 else -1
      ensures desktopBtn.disabled <==> desktopIndex < 0
      ensures mobileBtn.disabled <==> mobileIndex < 0
      ensures var target := TargetIndex(PreferredDevice(narrowViewport, desktopIndex, mobileIndex), desktopIndex, mobileIndex);
              0 <= target < |slides| &&
              forall i | 0 <= i < |slides| :: slides[i].display == if hasSwiper || i == target then "" else "none"
      ensures var device := PreferredDevice(narrowViewport, desktopIndex, mobileIndex);
              && ("active" in desktopBtn.classes <==> device == Desktop)
              && ("active" in mobileBtn.classes <==> device == Mobile)
              && desktopBtn.ariaPressed == (if device == Desktop then "true" else "false")
              && mobileBtn.ariaPressed == (if device == Mobile then "true" else "false")
              && ("device-mobile" in sliderClasses <==> device == Mobile)
              && ("device-desktop" in sliderClasses <==> device == Desktop)
      ensures forall c | c != "active" :: (c in desktopBtn.classes <==> c == "device-switch-btn") &&
                                          (c in mobileBtn.classes <==> c == "device-switch-btn")
      ensures forall c | c != "device-mobile" && c != "device-desktop" ::
                c in sliderClasses <==> c in sliderClasses0 || c == "portfolio-device-switcher"
      ensures this.hasSwiper == hasSwiper
      ensures swiperIndex == if hasSwiper then TargetIndex(PreferredDevice(narrowViewport, desktopIndex, mobileIndex), desktopIndex, mobileIndex) else -1
    {
      slides := slides0;
      sliderClasses := sliderClasses0 + {"portfolio-device-switcher"};
      this.hasSwiper := hasSwiper;
      swiperIndex := -1;
      desktopBtn := Button({"device-switch-btn", "active"}, "", false);
      mobileBtn := Button({"device-switch-btn"}, "", false);
      desktopIndex, mobileIndex := -1, -1;
      new;
      assert |"device-switch-btn"| != |"active"|;
      Setup(narrowViewport);
    }

    /** The work of the constructor once the fields hold the slider as
        found: labels the slides, locates each device's slide, sets the
        buttons' disabled flags and shows the preferred device's slide. */
    method Setup(narrowViewport: bool)
      requires 0 < |slides|
      modifies this`slides, this`desktopIndex, this`mobileIndex, this`desktopBtn, this`mobileBtn, this`sliderClasses, this`swiperIndex
      ensures |slides| == |old(slides)| && Labelled(slides)
      ensures forall i | 0 <= i < |slides| :: slides[i].classes == old(slides)[i].classes
      ensures desktopIndex == if "mob" in slides[0].classes then -1 else 0
      ensures mobileIndex == if "mob" in slides[0].classes then 0 else if 1 < |slides| then 1 else -1
      ensures desktopBtn.disabled <==> desktopIndex < 0
      ensures mobileBtn.disabled <==> mobileIndex < 0
      ensures var target := TargetIndex(PreferredDevice(narrowViewport, desktopIndex, mobileIndex), desktopIndex, mobileIndex);
              && 0 <= target < |slides|
              && (forall i | 0 <= i < |slides| :: slides[i].display == if hasSwiper || i == target then "" else "none")
              && swiperIndex == if hasSwiper then target else old(swiperIndex)
      ensures var device := PreferredDevice(narrowViewport, desktopIndex, mobileIndex);
              && ("active" in desktopBtn.classes <==> device == Desktop)
              && ("active" in mobileBtn.classes <==> device == Mobile)
              && desktopBtn.ariaPressed == (if device == Desktop then "true" else "false")
              && mobileBtn.ariaPressed == (if device == Mobile then "true" else "false")
              && ("device-mobile" in sliderClasses <==> device == Mobile)
              && ("device-desktop" in sliderClasses <==> device == Desktop)
      ensures forall c | c != "active" :: (c in desktopBtn.classes <==> c in old(desktopBtn.classes)) &&
                                          (c in mobileBtn.classes <==> c in old(mobileBtn.classes))
      ensures forall c | c != "device-mobile" && c != "device-desktop" :: c in sliderClasses <==> c in old(sliderClasses)
    {
      LabelSlides();
      LocateDeviceSlides();
      PreferredDeviceHasSlide(slides, narrowViewport);
      var device := PreferredDevice(narrowViewport, desktopIndex, mobileIndex);
      assert 0 <= TargetIndex(device, desktopIndex, mobileIndex) < |slides|;
      ShowDeviceSlide(device);
    }

    /** The labelling loop: every slide gets the device `DeviceLabel` gives
        it; nothing else about the slides changes. */
    method LabelSlides()
      modifies this`slides
      ensures |slides| == |old(slides)| && Labelled(slides)
      ensures forall i | 0 <= i < |slides| ::
                slides[i].classes == old(slides)[i].classes && slides[i].display == old(slides)[i].display
    {
      var i := 0;
      while i < |slides|
        invariant 0 <= i <= |slides| == |old(slides)|
        invariant forall j | 0 <= j < |slides| ::
                    slides[j].classes == old(slides)[j].classes && slides[j].display == old(slides)[j].display
        invariant forall j | 0 <= j < i :: slides[j].device == Some(DeviceLabel(slides[j], j))
      {
        slides := slides[i := slides[i].(device := Some(DeviceLabel(slides[i], i)))];
        i := i + 1;
      }
    }

    /** Finds the first desktop and the first mobile slide of the labelled
        slides, falls back to slide 1 for mobile when there is none among
        several slides, and disables the button of a device without a slide. */
    method LocateDeviceSlides()
      requires 0 < |slides| && Labelled(slides)
      modifies this`desktopIndex, this`mobileIndex, this`desktopBtn, this`mobileBtn
      ensures desktopIndex == if "mob" in slides[0].classes then -1 else 0
      ensures mobileIndex == if "mob" in slides[0].classes then 0 else if 1 < |slides| then 1 else -1
      ensures desktopBtn == old(desktopBtn).(disabled := desktopIndex < 0)
      ensures mobileBtn == old(mobileBtn).(disabled := mobileIndex < 0)
    {
      desktopIndex := FindIndex(slides, IsDesktopSlide);
      mobileIndex := FindIndex(slides, IsMobileSlide);
      if mobileIndex == -1 && |slides| > 1 {
        mobileIndex := 1;
      }
      LabelledIndices(slides);
      desktopBtn := desktopBtn.(disabled := desktopIndex < 0);
      mobileBtn := mobileBtn.(disabled := mobileIndex < 0);
    }

    /** `setActiveButton(device)`: exactly the button of `device` is active
        and pressed, and the slider carries exactly one of `device-mobile`
        and `device-desktop`; no other class changes. */
    method SetActiveButton(device: Device)
      modifies this`desktopBtn, this`mobileBtn, this`sliderClasses
      ensures ("active" in desktopBtn.classes <==> device == Desktop) && ("active" in mobileBtn.classes <==> device == Mobile)
      ensures desktopBtn.ariaPressed == (if device == Desktop then "true" else "false")
      ensures mobileBtn.ariaPressed == (if device == Mobile then "true" else "false")
      ensures ("device-mobile" in sliderClasses <==> device == Mobile) && ("device-desktop" in sliderClasses <==> device == Desktop)
      ensures desktopBtn.disabled == old(desktopBtn.disabled) && mobileBtn.disabled == old(mobileBtn.disabled)
      ensures forall c | c != "active" :: (c in desktopBtn.classes <==> c in old(desktopBtn.classes)) &&
                                           (c in mobileBtn.classes <==> c in old(mobileBtn.classes))
      ensures forall c | c != "device-mobile" && c != "device-desktop" :: c in sliderClasses <==> c in old(sliderClasses)
    {
      desktopBtn := desktopBtn.(classes := Toggle(desktopBtn.classes, "active", device == Desktop));
      mobileBtn := mobileBtn.(classes := Toggle(mobileBtn.classes, "active", device == Mobile));
      desktopBtn := desktopBtn.(ariaPressed := if device == Desktop then "true" else "false");
      mobileBtn := mobileBtn.(ariaPressed := if device == Mobile then "true" else "false");
      sliderClasses := Toggle(sliderClasses, "device-mobile", device == Mobile);
      sliderClasses := Toggle(sliderClasses, "device-desktop", device != Mobile);
    }

    /** `showDeviceSlide(device)`: does nothing when the device has no slide;
        otherwise presses its button and either shows every slide and sends
        the swiper to the device's slide, or, without a swiper, shows that
        slide alone. */
    method ShowDeviceSlide(device: Device)
      modifies this`slides, this`desktopBtn, this`mobileBtn, this`sliderClasses, this`swiperIndex
      ensures var target := TargetIndex(device, desktopIndex, mobileIndex);
              if target < 0 then unchanged(this)
              else
                && ("active" in desktopBtn.classes <==> device == Desktop)
                && ("active" in mobileBtn.classes <==> device == Mobile)
                && desktopBtn.ariaPressed == (if device == Desktop then "true" else "false")
                && mobileBtn.ariaPressed == (if device == Mobile then "true" else "false")
                && (forall c | c != "active" :: (c in desktopBtn.classes <==> c in old(desktopBtn.classes)) &&
                                                (c in mobileBtn.classes <==> c in old(mobileBtn.classes)))
                && ("device-mobile" in sliderClasses <==> device == Mobile)
                && ("device-desktop" in sliderClasses <==> device == Desktop)
                && |slides| == |old(slides)|
                && (forall i | 0 <= i < |slides| ::
                      slides[i] == old(slides)[i].(display := if hasSwiper || i == target then "" else "none"))
                && swiperIndex == (if hasSwiper then target else old(swiperIndex))
                && desktopBtn.disabled == old(desktopBtn.disabled) && mobileBtn.disabled == old(mobileBtn.disabled)
                && (forall c | c != "device-mobile" && c != "device-desktop" :: c in sliderClasses <==> c in old(sliderClasses))
    {
      var targetIndex := TargetIndex(device, desktopIndex, mobileIndex);
      if targetIndex < 0 {
        return;
      }
      SetActiveButton(device);
      var i := 0;
      while i < |slides|
        modifies this`slides
        invariant 0 <= i <= |slides| == |old(slides)|
        invariant forall j | 0 <= j < i ::
                    slides[j] == old(slides)[j].(display := if hasSwiper || j == targetIndex then "" else "none")
        invariant forall j | i <= j < |slides| :: slides[j] == old(slides)[j]
      {
        slides := slides[i := slides[i].(display := if hasSwiper || i == targetIndex then "" else "none")];
        i := i + 1;
      }
      if hasSwiper {
        swiperIndex := targetIndex;
      }
    }
  }
}
