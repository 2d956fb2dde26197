/** `initGLFW` on Linux: the window-system platform is taken from the
    `GLFW_PLATFORM` environment variable, X11 when it is unset or empty, and
    GLFW is then initialised for a window without a client API. Reading the
    environment and the outcome of `glfwInit` are parameters. */
module Glfw {
  import opened Wrappers
  import opened Text

  /** Init-hint values from GLFW 3.4's header. */
  const GLFW_PLATFORM_WAYLAND: int := 0x0006_0003
  const GLFW_PLATFORM_X11: int := 0x0006_0004
  const GLFW_PLATFORM_NULL: int := 0x0006_0005
  const GLFW_NO_API: int := 0

  datatype Platform = X11 | Wayland | Headless

  /** The value GLFW receives for the `GLFW_PLATFORM` init hint. */
  function PlatformHint(p: Platform): (hint: int)
    ensures hint in {GLFW_PLATFORM_X11, GLFW_PLATFORM_WAYLAND, GLFW_PLATFORM_NULL}
  {
    match p
    case X11 => GLFW_PLATFORM_X11
    case Wayland => GLFW_PLATFORM_WAYLAND
    case Headless => GLFW_PLATFORM_NULL
  }

  /** The spelling of each platform in the environment variable. */
  function PlatformName(p: Platform): (name: string)
    ensures 0 < |name| && forall i :: 0 <= i < |name| ==> !IsUpper(name[i])
  {
    match p
    case X11 => "x11"
    case Wayland => "wayland"
    case Headless => "null"
  }

  /** The platform `GLFW_PLATFORM` selects: X11 when unset or empty,
      otherwise the platform whose name is the lower-cased value. The error
      quotes the lower-cased value. */
  function SelectPlatform(env: Option<string>): (r: Result<Platform>)
    ensures (env.None? || env.value == "") ==> r == Ok(X11)
    ensures r.Ok? && env.Some? && env.value != "" ==> PlatformName(r.value) == ToLower(env.value)
    ensures r.Err? ==> env.Some? && forall p: Platform :: PlatformName(p) != ToLower(env.value)
    ensures r.Err? ==> r.error == "Invalid GLFW_PLATFORM value on Linux: " + ToLower(env.value)
                                  + " (expected x11, wayland, null)"
  {
    if env.None? || env.value == "" then Ok(X11)
    else
      var platform := ToLower(env.value);
      if platform == "x11" then Ok(X11)
      else if platform == "wayland" then Ok(Wayland)
      else if platform == "null" then Ok(Headless)
      else Err("Invalid GLFW_PLATFORM value on Linux: " + platform + " (expected x11, wayland, null)")
  }

  /** Every platform is selected by its name, whatever its case. */
  lemma SelectPlatformByName(p: Platform, value: string)
    requires ToLower(value) == PlatformName(p)
    ensures SelectPlatform(Some(value)) == Ok(p)
  {
    assert value != "";
    var name := PlatformName(p);
    assert ToLower(name) == name;
  }

  /** The hints GLFW is left with after a successful `initGLFW`. */
  datatype Hints = Hints(platformHint: int, clientApi: int)

  /** `initGLFW`: the platform hint, then `glfwInit`, whose success is
      `initSucceeds`; on success the client API hint is "no API". */
  function InitGlfw(env: Option<string>, initSucceeds: bool): (r: Result<Hints>)
    ensures r.Ok? <==> SelectPlatform(env).Ok? && initSucceeds
    ensures r.Ok? ==> r.value == Hints(PlatformHint(SelectPlatform(env).value), GLFW_NO_API)
    ensures SelectPlatform(env).Ok? && !initSucceeds ==> r == Err("Failed to initialize GLFW")
    ensures SelectPlatform(env).Err? ==> r.Err? && r.error == SelectPlatform(env).error
  {
    var platform :- SelectPlatform(env);
    if !initSucceeds then Err("Failed to initialize GLFW")
    else Ok(Hints(PlatformHint(platform), GLFW_NO_API))
  }

  /** Without the variable, or with it empty, GLFW is hinted to X11. */
  lemma DefaultsToX11()
    ensures InitGlfw(None, true) == Ok(Hints(GLFW_PLATFORM_X11, GLFW_NO_API))
    ensures InitGlfw(Some(""), true) == Ok(Hints(GLFW_PLATFORM_X11, GLFW_NO_API))
  {
  }
}
