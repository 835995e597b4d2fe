// Render configuration: the `Settings` record edited through the GUI and read
// at the start of every render pass. It is threaded through the engine as a
// parameter instead of living in a global.
module Config {

  datatype Settings = Settings(
    maxDepth: int,         // mirror recursion budget handed to every primary ray
    subsamples: int,       // sub-rays per pixel axis
    width: int,            // requested canvas width in pixels
    height: int,           // requested canvas height in pixels
    correctSpheres: bool,  // analytic sphere test instead of the tessellated mesh
    phong: bool,           // Phong shading instead of flat material colour
    alllights: bool,       // all three lights instead of the first one only
    shadows: bool,         // shadow rays
    mirrors: bool          // mirror recursion
  )

  /** The ranges the GUI sliders allow for the two numeric settings. */
  predicate InGuiRange(s: Settings) {
    0 <= s.maxDepth <= 10 && 1 <= s.subsamples <= 4
  }

  /** The values a fresh `Settings` object starts with. */
  function Defaults(): (s: Settings)
    ensures InGuiRange(s)
    ensures s.maxDepth == 2 && s.subsamples == 1
    ensures s.width == 256 && s.height == 256
    ensures !s.correctSpheres && !s.phong && !s.alllights && !s.shadows && !s.mirrors
  {
    Settings(2, 1, 256, 256, false, false, false, false, false)
  }
}
