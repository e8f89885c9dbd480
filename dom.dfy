/** The two kinds of style value the carousels write into the page. */
module Dom {

  /** `style.opacity`: `'1'` (shown) or `'0'` (hidden). */
  datatype Opacity = Shown | Hidden

  /** `style.backgroundImage`: unset, or `url(src)`. */
  datatype Background = NoImage | Url(src: string)
}
